/**
 * Name selection of blt/src/applications/application_factory.rs: the mode
 * (client or server) and the application are chosen by case-insensitive names
 * read from the environment variables APP_MODE and APP.
 */
module Factory {
  import opened Common

  /** `char::to_lowercase` restricted to ASCII letters. */
  function ToLowerChar(c: char): char
  {
    if 'A' <= c <= 'Z' then (c as int + 32) as char else c
  }

  /** `str::to_lowercase` on ASCII text. */
  function ToLower(s: string): (r: string)
    ensures |r| == |s|
    ensures forall i :: 0 <= i < |s| ==> r[i] == ToLowerChar(s[i])
  {
    if s == [] then [] else [ToLowerChar(s[0])] + ToLower(s[1..])
  }

  lemma ToLowerIdempotent(s: string)
    ensures ToLower(ToLower(s)) == ToLower(s)
  {
  }

  /** `ApplicationMode`. */
  datatype ApplicationMode = Client | Server

  /** `ApplicationMode::from_str`: the input is lowercased before it is matched. */
  function ModeFromStr(input: string): (r: Result<ApplicationMode, ()>)
    ensures r == Ok(Client) <==> ToLower(input) == "client"
    ensures r == Ok(Server) <==> ToLower(input) == "server"
    ensures r.Err? <==> ToLower(input) != "client" && ToLower(input) != "server"
  {
    var value := ToLower(input);
    if value == "client" then Ok(Client)
    else if value == "server" then Ok(Server)
    else Err(())
  }

  /** Case does not matter: a name and its lowercase select the same mode. */
  lemma {:induction false} ModeIsCaseInsensitive(input: string)
    ensures ModeFromStr(input) == ModeFromStr(ToLower(input))
  {
  }

  lemma ModeExampleClient()
    ensures ModeFromStr("Client") == Ok(Client)
  {
  }

  lemma ModeExampleServer()
    ensures ModeFromStr("SERVER") == Ok(Server)
  {
  }

  lemma ModeExamplesRejected()
    ensures ModeFromStr("clients").Err? && ModeFromStr("").Err?
  {
  }

  /** The applications of the crate. */
  datatype BltApplication = PingPong | Adder | Cts | HeartRate

  /** `get_blt_application`: the heart-rate application is not registered. */
  function GetBltApplication(name: string): (r: Option<BltApplication>)
    ensures r != Some(HeartRate)
    ensures r == Some(PingPong) <==> ToLower(name) == "ping_pong"
    ensures r == Some(Adder) <==> ToLower(name) == "adder"
    ensures r == Some(Cts) <==> ToLower(name) == "cts"
  {
    var value := ToLower(name);
    if value == "ping_pong" then Some(PingPong)
    else if value == "adder" then Some(Adder)
    else if value == "cts" then Some(Cts)
    else None
  }

  lemma {:induction false} ApplicationIsCaseInsensitive(name: string)
    ensures GetBltApplication(name) == GetBltApplication(ToLower(name))
  {
  }

  /** The process environment, a partial map from variable names to values. */
  type Environment = map<string, string>

  const APP: string := "APP"
  const APP_MODE: string := "APP_MODE"

  /** `get_env_var`. */
  function GetEnvVar(env: Environment, key: string): Option<string>
  {
    if key in env then Some(env[key]) else None
  }

  /** `discover_mode`: None when APP_MODE is missing or names no mode. */
  function DiscoverMode(env: Environment): (r: Option<ApplicationMode>)
    ensures r.Some? <==> APP_MODE in env && ModeFromStr(env[APP_MODE]).Ok?
    ensures r.Some? ==> Ok(r.value) == ModeFromStr(env[APP_MODE])
  {
    match GetEnvVar(env, APP_MODE)
    case Some(mode) =>
      (match ModeFromStr(mode)
       case Ok(m) => Some(m)
       case Err(_) => None)
    case None => None
  }

  /** `discover_application`: None when APP is missing or names no application. */
  function DiscoverApplication(env: Environment): (r: Option<BltApplication>)
    ensures r.Some? <==> APP in env && GetBltApplication(env[APP]).Some?
    ensures r.Some? ==> r == GetBltApplication(env[APP])
  {
    match GetEnvVar(env, APP)
    case Some(name) => GetBltApplication(name)
    case None => None
  }

  /** What `launch_application` starts. */
  datatype Launch = NotLaunched | StartClient(app: BltApplication) | StartServer(app: BltApplication)

  /** `launch_application`: starts the client or the server only when both the
      application and the mode resolve; otherwise it returns `Ok(())` doing nothing. */
  function LaunchApplication(env: Environment): (r: Launch)
    ensures r.NotLaunched? <==> DiscoverApplication(env).None? || DiscoverMode(env).None?
    ensures r.StartClient? <==>
              DiscoverApplication(env).Some? && DiscoverMode(env) == Some(Client)
    ensures !r.NotLaunched? ==> Some(r.app) == DiscoverApplication(env) && r.app != HeartRate
  {
    match DiscoverApplication(env)
    case Some(application) =>
      (match DiscoverMode(env)
       case Some(Client) => StartClient(application)
       case Some(Server) => StartServer(application)
       case None => NotLaunched)
    case None => NotLaunched
  }
}
