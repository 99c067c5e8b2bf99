/**
 * Everything main does before the poll loop starts: the single-argument
 * cases, the argument map, the optional config file merged over the
 * defaults, and the command-line overrides with their validation.
 */
module Configuration {
  import opened Wrappers
  import opened CommandLine

  /** The run settings, field for field. */
  datatype NestConfig = NestConfig(
    token: string,
    thermostatID: string,
    minutes: int,
    output: string,
    lastOutput: string,
    debug: bool,
    webhookPost: string,
    webhookGet: string)

  /** The settings main starts from. */
  const DEFAULTS := NestConfig("", "", 10, "nest.tsv", "nest_last.json", false, "", "")

  /** Why main stops before the loop. */
  datatype ConfigError =
    | ExpectedArguments
    | UnexpectedArgument
    | ConfigFileError(message: string)
    | MissingThermostatID
    | MissingToken
    | MinutesNotNumber
    | MinutesBelowOne
    | InvalidWebhookPost
    | InvalidWebhookGet

  /** The errors the override block can report. */
  const OVERRIDE_ERRORS: set<ConfigError> :=
    {MissingThermostatID, MissingToken, MinutesNotNumber, MinutesBelowOne, InvalidWebhookPost, InvalidWebhookGet}

  /** What main ends in: the help text, an error message, or the poll loop with its settings. */
  datatype Launch = ShowHelp | Abort(error: ConfigError) | Run(config: NestConfig)

  /** The value of an option in the argument map; a missing key reads as the empty string. */
  function Arg(argMap: map<Command, string>, c: Command): string {
    if c in argMap then argMap[c] else ""
  }

  /** The file's settings with unset minutes, output and last output taken from `config`. */
  function Patched(file: NestConfig, config: NestConfig): NestConfig {
    file.(
      minutes := if file.minutes < 1 then config.minutes else file.minutes,
      output := if file.output == "" then config.output else file.output,
      lastOutput := if file.lastOutput == "" then config.lastOutput else file.lastOutput)
  }

  /**
   * processConfig: `loaded` stands for reading and decoding the file, which
   * yields the file's settings (absent fields zero) or the error text.
   * The file's minutes, output and lastOutput are patched from `config`
   * when they are unset; every other field is taken from the file.
   */
  method ProcessConfig(loaded: Result<NestConfig, string>, config: NestConfig) returns (r: Result<NestConfig, string>)
    ensures loaded.Err? ==> r == Err(loaded.error)
    ensures loaded.Ok? ==> r == Ok(Patched(loaded.value, config))
    ensures loaded.Ok? ==> var file, merged := loaded.value, r.value;
      && (file.minutes >= 1 ==> merged.minutes == file.minutes)
      && (file.minutes < 1 ==> merged.minutes == config.minutes)
      && (file.output != "" ==> merged.output == file.output)
      && (file.output == "" ==> merged.output == config.output)
      && (file.lastOutput != "" ==> merged.lastOutput == file.lastOutput)
      && (file.lastOutput == "" ==> merged.lastOutput == config.lastOutput)
      && merged.token == file.token && merged.thermostatID == file.thermostatID
      && merged.debug == file.debug
      && merged.webhookPost == file.webhookPost && merged.webhookGet == file.webhookGet
    ensures r.Ok? && config.minutes >= 1 ==> r.value.minutes >= 1
    ensures r.Ok? && config.output != "" ==> r.value.output != ""
    ensures r.Ok? && config.lastOutput != "" ==> r.value.lastOutput != ""
  {
    if loaded.Err? {
      return Err(loaded.error);
    }
    var configOverride := loaded.value;
    if configOverride.minutes < 1 {
      configOverride := configOverride.(minutes := config.minutes);
    }
    if configOverride.output == "" {
      configOverride := configOverride.(output := config.output);
    }
    if configOverride.lastOutput == "" {
      configOverride := configOverride.(lastOutput := config.lastOutput);
    }
    return Ok(configOverride);
  }

  /** A non-empty command-line value wins over the configured one. */
  function Override(given: string, configured: string): string {
    if given != "" then given else configured
  }

  /** The checks of the override block, all of which must pass for the loop to start. */
  predicate OverridesAcceptable(
    argMap: map<Command, string>, config: NestConfig,
    atoi: string -> Option<int>, isRequestURI: string -> bool)
  {
    && (Arg(argMap, ThermostatID) != "" || config.thermostatID != "")
    && (Arg(argMap, Token) != "" || config.token != "")
    && (Arg(argMap, Minutes) != "" ==>
          atoi(Arg(argMap, Minutes)).Some? && atoi(Arg(argMap, Minutes)).value >= 1)
    && (Arg(argMap, WebhookPost) != "" ==> isRequestURI(Arg(argMap, WebhookPost)))
    && (Arg(argMap, WebhookGet) != "" ==> isRequestURI(Arg(argMap, WebhookGet)))
  }

  /**
   * The error the override block reports: the first failing check in the
   * order thermostat id, token, minutes parse, minutes bound, webhook-post,
   * webhook-get; none when every check passes.
   */
  function OverrideError(
    argMap: map<Command, string>, config: NestConfig,
    atoi: string -> Option<int>, isRequestURI: string -> bool): (e: Option<ConfigError>)
    ensures e.None? <==> OverridesAcceptable(argMap, config, atoi, isRequestURI)
    ensures e.Some? ==> e.value in OVERRIDE_ERRORS
  {
    var minutesStr := Arg(argMap, Minutes);
    if Arg(argMap, ThermostatID) == "" && config.thermostatID == "" then Some(MissingThermostatID)
    else if Arg(argMap, Token) == "" && config.token == "" then Some(MissingToken)
    else if minutesStr != "" && atoi(minutesStr).None? then Some(MinutesNotNumber)
    else if minutesStr != "" && atoi(minutesStr).value < 1 then Some(MinutesBelowOne)
    else if Arg(argMap, WebhookPost) != "" && !isRequestURI(Arg(argMap, WebhookPost)) then Some(InvalidWebhookPost)
    else if Arg(argMap, WebhookGet) != "" && !isRequestURI(Arg(argMap, WebhookGet)) then Some(InvalidWebhookGet)
    else None
  }

  /** The settings once every non-empty command-line value has replaced the configured one. */
  function Overridden(argMap: map<Command, string>, config: NestConfig, atoi: string -> Option<int>): NestConfig {
    var minutesStr := Arg(argMap, Minutes);
    config.(
      thermostatID := Override(Arg(argMap, ThermostatID), config.thermostatID),
      token := Override(Arg(argMap, Token), config.token),
      minutes := if minutesStr != "" && atoi(minutesStr).Some? then atoi(minutesStr).value else config.minutes,
      output := Override(Arg(argMap, Output), config.output),
      webhookPost := Override(Arg(argMap, WebhookPost), config.webhookPost),
      webhookGet := Override(Arg(argMap, WebhookGet), config.webhookGet))
  }

  /**
   * The settings the override block starts from: the defaults, or, when a
   * config file is named, the file's settings patched from the defaults.
   */
  function StartConfig(argMap: map<Command, string>, readConfig: string -> Result<NestConfig, string>): (r: Result<NestConfig, string>)
    ensures Arg(argMap, ConfigFile) == "" ==> r == Ok(DEFAULTS)
    ensures r.Err? ==>
      Arg(argMap, ConfigFile) != "" && readConfig(Arg(argMap, ConfigFile)).Err? && r.error == readConfig(Arg(argMap, ConfigFile)).error
    ensures r.Ok? ==> r.value.minutes >= 1 && r.value.output != "" && r.value.lastOutput != ""
  {
    var configFile := Arg(argMap, ConfigFile);
    if configFile == "" then Ok(DEFAULTS)
    else
      match readConfig(configFile)
      case Err(message) => Err(message)
      case Ok(file) => Ok(Patched(file, DEFAULTS))
  }

  /**
   * The override block of main: each non-empty command-line value replaces
   * the configured one, in the order thermostat id, token, minutes, output,
   * webhook-post, webhook-get. `atoi` stands for strconv.Atoi and
   * `isRequestURI` for a successful url.ParseRequestURI.
   */
  method ApplyOverrides(
    argMap: map<Command, string>, config: NestConfig,
    atoi: string -> Option<int>, isRequestURI: string -> bool)
    returns (r: Result<NestConfig, ConfigError>)
    ensures r.Ok? <==> OverridesAcceptable(argMap, config, atoi, isRequestURI)
    ensures r.Err? ==> r.error in OVERRIDE_ERRORS
    ensures r.Err? <==> OverrideError(argMap, config, atoi, isRequestURI).Some?
    ensures r.Err? ==> r.error == OverrideError(argMap, config, atoi, isRequestURI).value
    ensures r.Ok? ==> r.value == Overridden(argMap, config, atoi)
    ensures r.Err? && r.error == MinutesBelowOne ==>
      atoi(Arg(argMap, Minutes)).Some? && atoi(Arg(argMap, Minutes)).value < 1
    ensures r.Err? ==>
      (r.error == MissingThermostatID <==> Arg(argMap, ThermostatID) == "" && config.thermostatID == "")
    ensures r.Err? && (Arg(argMap, ThermostatID) != "" || config.thermostatID != "") ==>
      (r.error == MissingToken <==> Arg(argMap, Token) == "" && config.token == "")
    ensures r.Ok? ==> var c := r.value;
      && c.thermostatID == Override(Arg(argMap, ThermostatID), config.thermostatID)
      && c.token == Override(Arg(argMap, Token), config.token)
      && c.minutes == (if Arg(argMap, Minutes) != "" then atoi(Arg(argMap, Minutes)).value else config.minutes)
      && c.output == Override(Arg(argMap, Output), config.output)
      && c.webhookPost == Override(Arg(argMap, WebhookPost), config.webhookPost)
      && c.webhookGet == Override(Arg(argMap, WebhookGet), config.webhookGet)
      && c.lastOutput == config.lastOutput && c.debug == config.debug
    ensures r.Ok? ==> r.value.thermostatID != "" && r.value.token != ""
    ensures r.Ok? && Arg(argMap, Minutes) != "" ==> r.value.minutes >= 1
  {
    var thermostatID := Arg(argMap, ThermostatID);
    if thermostatID == "" && config.thermostatID == "" {
      return Err(MissingThermostatID);
    }
    var token := Arg(argMap, Token);
    if token == "" && config.token == "" {
      return Err(MissingToken);
    }
    var minutes := config.minutes;
    var minutesStr := Arg(argMap, Minutes);
    if minutesStr != "" {
      var minutesInt := atoi(minutesStr);
      if minutesInt.None? {
        return Err(MinutesNotNumber);
      }
      if minutesInt.value < 1 {
        return Err(MinutesBelowOne);
      }
      minutes := minutesInt.value;
    }
    var webhookPost := Arg(argMap, WebhookPost);
    if webhookPost != "" && !isRequestURI(webhookPost) {
      return Err(InvalidWebhookPost);
    }
    var webhookGet := Arg(argMap, WebhookGet);
    if webhookGet != "" && !isRequestURI(webhookGet) {
      return Err(InvalidWebhookGet);
    }
    // main writes each field as soon as its check passes; the writes touch
    // distinct fields and follow every check, so they are gathered here.
    var c := config.(
      thermostatID := Override(thermostatID, config.thermostatID),
      token := Override(token, config.token),
      minutes := minutes,
      output := Override(Arg(argMap, Output), config.output),
      webhookPost := Override(webhookPost, config.webhookPost),
      webhookGet := Override(webhookGet, config.webhookGet));
    return Ok(c);
  }

  /**
   * main up to the call of the loop. `readConfig` stands for reading and
   * decoding the named config file.
   */
  method Startup(
    args: seq<string>,
    readConfig: string -> Result<NestConfig, string>,
    atoi: string -> Option<int>, isRequestURI: string -> bool)
    returns (r: Launch)
    ensures |args| == 1 ==> r == Abort(ExpectedArguments)
    ensures |args| == 2 ==> r == (if Lower(args[1]) in HELP_WORDS then ShowHelp else Abort(UnexpectedArgument))
    ensures r == ShowHelp ==> |args| == 2
    ensures |args| != 1 && |args| != 2 ==> (r == Abort(UnexpectedArgument) <==> ArgMap(TABLES, args).None?)
    ensures r.Run? ==> r.config.minutes >= 1 && r.config.thermostatID != "" && r.config.token != ""
    ensures r.Run? ==> ArgMap(TABLES, args).Some?
    ensures |args| != 1 && |args| != 2 && ArgMap(TABLES, args).Some? ==>
      var argMap := ArgMap(TABLES, args).value;
      var base := StartConfig(argMap, readConfig);
      && (base.Err? ==> r == Abort(ConfigFileError(base.error)))
      && (base.Ok? && !OverridesAcceptable(argMap, base.value, atoi, isRequestURI) ==>
            r == Abort(OverrideError(argMap, base.value, atoi, isRequestURI).value))
      && (base.Ok? && OverridesAcceptable(argMap, base.value, atoi, isRequestURI) ==>
            r == Run(Overridden(argMap, base.value, atoi)))
    ensures r.Run? <==>
      && |args| != 1 && |args| != 2 && ArgMap(TABLES, args).Some?
      && StartConfig(ArgMap(TABLES, args).value, readConfig).Ok?
      && OverridesAcceptable(ArgMap(TABLES, args).value, StartConfig(ArgMap(TABLES, args).value, readConfig).value, atoi, isRequestURI)
    ensures r.Run? ==> var argMap := ArgMap(TABLES, args).value;
      && (Arg(argMap, ThermostatID) != "" ==> r.config.thermostatID == Arg(argMap, ThermostatID))
      && (Arg(argMap, Token) != "" ==> r.config.token == Arg(argMap, Token))
      && (Arg(argMap, Output) != "" ==> r.config.output == Arg(argMap, Output))
      && (Arg(argMap, Minutes) != "" ==> r.config.minutes == atoi(Arg(argMap, Minutes)).value)
      && (Arg(argMap, WebhookPost) != "" ==> r.config.webhookPost == Arg(argMap, WebhookPost))
      && (Arg(argMap, WebhookGet) != "" ==> r.config.webhookGet == Arg(argMap, WebhookGet))
      && (Arg(argMap, ConfigFile) == "" ==> r.config.lastOutput == DEFAULTS.lastOutput && !r.config.debug)
  {
    if |args| == 1 {
      return Abort(ExpectedArguments);
    }
    if |args| == 2 {
      var singleCheck := Lower(args[1]);
      if singleCheck !in HELP_WORDS {
        return Abort(UnexpectedArgument);
      }
      return ShowHelp;
    }
    var parsed := ParseArgs(TABLES, args);
    if parsed.None? {
      return Abort(UnexpectedArgument);
    }
    var argMap := parsed.value;
    var config := DEFAULTS;
    var configFile := Arg(argMap, ConfigFile);
    if configFile != "" {
      var configOverride := ProcessConfig(readConfig(configFile), config);
      if configOverride.Err? {
        return Abort(ConfigFileError(configOverride.error));
      }
      config := configOverride.value;
    }
    assert StartConfig(argMap, readConfig) == Ok(config);
    var overridden := ApplyOverrides(argMap, config, atoi, isRequestURI);
    if overridden.Err? {
      return Abort(overridden.error);
    }
    return Run(overridden.value);
  }
}
