/**
 * The decision rules of the `rlgl` command-line client (Red Light Green
 * Light): where the configuration file lives, how the proxy is chosen, the
 * ordered precondition checks of the `login`, `start`, `log` and `evaluate`
 * commands, the requests each command sends when its checks pass, and how the
 * evaluation server's answer becomes the process exit status.
 *
 * The network, the configuration file and the environment are not touched:
 * server answers, the environment and the set of existing files are
 * parameters, and a command's effect is described by the requests it sends.
 */
module Rlgl {
  import Utf8
  import Base64

  // ---------------------------------------------------------------------------
  // Go string helpers: strings.HasPrefix, strings.HasSuffix, strings.Split and
  // strings.Join with the separator "/".
  // ---------------------------------------------------------------------------

  /** `strings.HasPrefix`. */
  predicate HasPrefix(s: string, prefix: string) {
    |prefix| <= |s| && s[..|prefix|] == prefix
  }

  /** `strings.HasSuffix`. */
  predicate HasSuffix(s: string, suffix: string) {
    |suffix| <= |s| && s[|s| - |suffix|..] == suffix
  }

  /** A string has a prefix exactly when it begins with the prefix's characters, one for one. */
  lemma HasPrefixPointwise(s: string, prefix: string)
    ensures HasPrefix(s, prefix) <==> |prefix| <= |s| && forall i :: 0 <= i < |prefix| ==> s[i] == prefix[i]
  {
    if |prefix| <= |s| && forall i :: 0 <= i < |prefix| ==> s[i] == prefix[i] {
      assert s[..|prefix|] == prefix;
    }
  }

  /** A string has a suffix exactly when it ends with the suffix's characters, one for one. */
  lemma HasSuffixPointwise(s: string, suffix: string)
    ensures HasSuffix(s, suffix) <==> |suffix| <= |s| && forall i :: 0 <= i < |suffix| ==> s[|s| - |suffix| + i] == suffix[i]
  {
    if |suffix| <= |s| && forall i :: 0 <= i < |suffix| ==> s[|s| - |suffix| + i] == suffix[i] {
      assert s[|s| - |suffix|..] == suffix;
    }
  }

  /** `strings.Split(s, "/")`: the pieces between slashes, always at least one. */
  function Split(s: string): (parts: seq<string>)
    ensures |parts| >= 1
    ensures forall i :: 0 <= i < |parts| ==> '/' !in parts[i]
    ensures |parts| == 1 <==> '/' !in s
  {
    if s == [] then [""]
    else
      var rest := Split(s[1..]);
      assert s == [s[0]] + s[1..];
      if s[0] == '/' then [""] + rest
      else [[s[0]] + rest[0]] + rest[1..]
  }

  /** `strings.Join(parts, "/")`. */
  function Join(parts: seq<string>): string {
    if |parts| == 0 then ""
    else if |parts| == 1 then parts[0]
    else parts[0] + "/" + Join(parts[1..])
  }

  /** Splitting a join of slash-free pieces gives back the pieces. */
  lemma {:induction false} SplitJoin(parts: seq<string>)
    requires |parts| >= 1
    requires forall i :: 0 <= i < |parts| ==> '/' !in parts[i]
    ensures Split(Join(parts)) == parts
  {
    if |parts| == 1 {
      SplitNoSlash(parts[0]);
    } else {
      SplitJoin(parts[1..]);
      SplitAfterPiece(parts[0], Join(parts[1..]));
      assert parts == [parts[0]] + parts[1..];
    }
  }

  /** A string with no slash is one piece. */
  lemma {:induction false} SplitNoSlash(s: string)
    requires '/' !in s
    ensures Split(s) == [s]
  {
    if s != [] {
      SplitNoSlash(s[1..]);
      assert s == [s[0]] + s[1..];
    }
  }

  /** A slash-free piece and a slash in front of `b` add that piece in front of the pieces of `b`. */
  lemma {:induction false} SplitAfterPiece(a: string, b: string)
    requires '/' !in a
    ensures Split(a + "/" + b) == [a] + Split(b)
  {
    var s := a + "/" + b;
    if a == [] {
      assert s == "/" + b && s[1..] == b;
    } else {
      assert s[0] == a[0] && s[1..] == a[1..] + "/" + b;
      SplitAfterPiece(a[1..], b);
      var rest := Split(s[1..]);
      assert rest == [a[1..]] + Split(b);
      assert rest[0] == a[1..] && rest[1..] == Split(b);
      assert [a[0]] + a[1..] == a;
    }
  }

  /** Joining the pieces of a split gives the original string back. */
  lemma {:induction false} JoinSplit(s: string)
    ensures Join(Split(s)) == s
  {
    if s != [] {
      var rest := Split(s[1..]);
      JoinSplit(s[1..]);
      assert s == [s[0]] + s[1..];
      if s[0] == '/' {
        assert Split(s) == [""] + rest;
        assert ([""] + rest)[1..] == rest;
      } else {
        var parts := [[s[0]] + rest[0]] + rest[1..];
        assert Split(s) == parts;
        if |rest| > 1 {
          assert parts[1..] == rest[1..];
          assert Join(parts) == [s[0]] + rest[0] + "/" + Join(rest[1..]);
        }
      }
    }
  }

  /** Joining with one more piece appends a slash and that piece. */
  lemma {:induction false} JoinSnoc(xs: seq<string>, y: string)
    requires |xs| >= 1
    ensures Join(xs + [y]) == Join(xs) + "/" + y
  {
    if |xs| == 1 {
      assert (xs + [y])[1..] == [y];
    } else {
      assert (xs + [y])[1..] == xs[1..] + [y];
      JoinSnoc(xs[1..], y);
    }
  }

  /** The last slash-separated component of a path; the whole path when it has no slash. */
  function LastComponent(path: string): (name: string)
    ensures '/' !in name
    ensures '/' !in path ==> name == path
  {
    var parts := Split(path);
    if '/' in path then parts[|parts| - 1]
    else
      SplitNoSlash(path);
      parts[|parts| - 1]
  }

  /**
   * `basedir`: everything before the last slash. With no slash it is empty;
   * otherwise it, a slash and the last component make up the path.
   */
  function Basedir(path: string): (dir: string)
    ensures HasPrefix(path, dir)
    ensures '/' !in path ==> dir == ""
    ensures '/' in path ==> dir + "/" + LastComponent(path) == path
  {
    var parts := Split(path);
    var dir := Join(parts[..|parts| - 1]);
    if '/' in path then
      JoinSplit(path);
      JoinInitLast(parts, path);
      PrefixOfChild(dir, parts[|parts| - 1]);
      dir
    else
      SplitNoSlash(path);
      assert parts[..|parts| - 1] == [];
      dir
  }

  /** Joining all pieces is joining all but the last, a slash, and the last. */
  lemma JoinInitLast(parts: seq<string>, joined: string)
    requires |parts| >= 2 && Join(parts) == joined
    ensures Join(parts[..|parts| - 1]) + "/" + parts[|parts| - 1] == joined
  {
    var n := |parts|;
    InitAndLast(parts);
    JoinSnoc(parts[..n - 1], parts[n - 1]);
  }

  lemma InitAndLast<T>(xs: seq<T>)
    requires |xs| >= 1
    ensures xs[..|xs| - 1] + [xs[|xs| - 1]] == xs
  {
  }

  lemma PrefixOfChild(dir: string, name: string)
    ensures (dir + "/" + name)[..|dir|] == dir
  {
  }

  /** A path split at a slash followed by a slash-free name splits in only one way. */
  lemma SlashSplitUnique(d1: string, n1: string, d2: string, n2: string)
    requires d1 + "/" + n1 == d2 + "/" + n2
    requires '/' !in n1 && '/' !in n2
    ensures d1 == d2 && n1 == n2
  {
    var p := d1 + "/" + n1;
    assert p == d2 + "/" + n2;
    assert p[|d1|] == '/' && p[|d2|] == '/';
    assert forall k :: 0 <= k < |n1| ==> p[|d1| + 1 + k] == n1[k];
    assert forall k :: 0 <= k < |n2| ==> p[|d2| + 1 + k] == n2[k];
    assert |d1| == |d2|;
    assert d1 == p[..|d1|] == d2;
    assert n1 == p[|d1| + 1..] == n2;
  }

  /** The directory of `dir + "/" + name` is `dir` whenever `name` holds no slash. */
  lemma BasedirOfChild(dir: string, name: string)
    requires '/' !in name
    ensures Basedir(dir + "/" + name) == dir
    ensures LastComponent(dir + "/" + name) == name
  {
    var path := dir + "/" + name;
    assert path[|dir|] == '/';
    SlashSplitUnique(Basedir(path), LastComponent(path), dir, name);
  }

  // ---------------------------------------------------------------------------
  // Configuration and its location.
  // ---------------------------------------------------------------------------

  /** The session configuration: these four fields and no others. */
  datatype Config = Config(host: string, key: string, proxy: string, proxyAuth: string)

  /** `NewConfig`: the configuration written on first run, every field empty. */
  const NewConfig := Config("", "", "", "")

  /** A step that either continues with a value or ends through `exitErr` with a message. */
  datatype Checked<T> = UsageError(message: string) | Ok(value: T)

  /** The exit status `exitErr` ends the process with. */
  const UsageStatus := 2

  /** The environment: `os.Environ()` entries (`NAME=value`) and the `os.LookupEnv` map. */
  datatype Env = Env(entries: seq<string>, vars: map<string, string>)

  /** Every variable the lookup map knows also appears among the entries. */
  ghost predicate Consistent(env: Env) {
    forall name | name in env.vars :: name + "=" + env.vars[name] in env.entries
  }

  /** A string of `n` underscores. */
  function Underscores(n: nat): (u: string)
    ensures |u| == n
    ensures forall i :: 0 <= i < n ==> u[i] == '_'
  {
    if n == 0 then "" else Underscores(n - 1) + "_"
  }

  /**
   * The entry contains a match of the regular expression `^XDG_*`: anchored at
   * the start, the letters `XDG`, then any number of underscores, none included.
   */
  ghost predicate MatchesXdgPattern(e: string) {
    exists n: nat :: HasPrefix(e, "XDG" + Underscores(n))
  }

  /** The executable form of the test: the entry starts with `XDG`. */
  predicate IsXdgEntry(e: string) {
    HasPrefix(e, "XDG")
  }

  /** Because the underscores may be absent, `^XDG_*` matches exactly the entries starting with `XDG`. */
  lemma XdgPatternIsPrefix(e: string)
    ensures MatchesXdgPattern(e) <==> IsXdgEntry(e)
  {
    if IsXdgEntry(e) {
      assert "XDG" + Underscores(0) == "XDG";
      assert HasPrefix(e, "XDG" + Underscores(0));
    }
    if MatchesXdgPattern(e) {
      var n: nat :| HasPrefix(e, "XDG" + Underscores(n));
      var m := "XDG" + Underscores(n);
      assert e[..3] == m[..3] == "XDG";
    }
  }

  /** Some environment entry starts with `XDG`. */
  predicate XdgEnvironment(entries: seq<string>) {
    exists i | 0 <= i < |entries| :: IsXdgEntry(entries[i])
  }

  /** `xdgSupport`: scans the entries and stops at the first that matches `^XDG_*`. */
  method XdgSupport(environ: seq<string>) returns (supported: bool)
    ensures supported <==> exists i :: 0 <= i < |environ| && MatchesXdgPattern(environ[i])
    ensures supported == XdgEnvironment(environ)
  {
    for i := 0 to |environ|
      invariant forall j :: 0 <= j < i ==> !IsXdgEntry(environ[j])
    {
      if IsXdgEntry(environ[i]) {
        XdgPatternIsPrefix(environ[i]);
        return true;
      }
    }
    forall j | 0 <= j < |environ|
      ensures !MatchesXdgPattern(environ[j])
    {
      XdgPatternIsPrefix(environ[j]);
    }
    return false;
  }

  /** Where the configuration file is, and whether a file is already there. */
  datatype Location = Location(path: string, present: bool)

  const HomeNotSet := "$HOME not set"

  /** The directory that holds the configuration file, for a given `$HOME`. */
  function ConfigDir(env: Env, home: string): string {
    if !XdgEnvironment(env.entries) then home + "/.rlgl"
    else if "XDG_CONFIG_HOME" in env.vars then env.vars["XDG_CONFIG_HOME"] + "/rlgl"
    else home + "/.config/rlgl"
  }

  /** The location `getConfigPath` picks; `existing` is the set of paths where a file exists. */
  function ConfigPath(env: Env, existing: set<string>): (r: Checked<Location>)
    ensures r.UsageError? <==> "HOME" !in env.vars
    ensures r.UsageError? ==> r.message == HomeNotSet
    ensures r.Ok? ==> r.value.present == (r.value.path in existing) && HasSuffix(r.value.path, "/config")
  {
    if "HOME" !in env.vars then UsageError(HomeNotSet)
    else
      var path := ConfigDir(env, env.vars["HOME"]) + "/config";
      Ok(Location(path, path in existing))
  }

  /** `getConfigPath`: the default path, overwritten when the environment supports XDG. */
  method GetConfigPath(env: Env, existing: set<string>) returns (r: Checked<Location>)
    ensures r == ConfigPath(env, existing)
  {
    if "HOME" !in env.vars {
      return UsageError(HomeNotSet);
    }
    var userHome := env.vars["HOME"];
    var path := userHome + "/.rlgl/config";
    var xdg := XdgSupport(env.entries);
    if xdg {
      var xdgHome: string;
      if "XDG_CONFIG_HOME" in env.vars {
        xdgHome := env.vars["XDG_CONFIG_HOME"];
      } else {
        xdgHome := userHome + "/.config";
      }
      path := xdgHome + "/rlgl/config";
      assert path == ConfigDir(env, userHome) + "/config";
    } else {
      assert path == ConfigDir(env, userHome) + "/config";
    }
    r := Ok(Location(path, path in existing));
  }

  /**
   * The three templates: without `$HOME` the lookup ends with exit status 2;
   * otherwise `$HOME/.rlgl/config` unless some entry starts with `XDG`, and then
   * `$XDG_CONFIG_HOME/rlgl/config`, or `$HOME/.config/rlgl/config` when that
   * variable is unset. The flag says whether a file exists at the path.
   */
  lemma ConfigPathRules(env: Env, existing: set<string>)
    ensures var r := ConfigPath(env, existing);
      && (r.UsageError? <==> "HOME" !in env.vars)
      && (r.UsageError? ==> r.message == HomeNotSet)
      && (r.Ok? ==> r.value.present == (r.value.path in existing))
      && (r.Ok? && !XdgEnvironment(env.entries) ==>
            r.value.path == env.vars["HOME"] + "/.rlgl/config")
      && (r.Ok? && XdgEnvironment(env.entries) && "XDG_CONFIG_HOME" in env.vars ==>
            r.value.path == env.vars["XDG_CONFIG_HOME"] + "/rlgl/config")
      && (r.Ok? && XdgEnvironment(env.entries) && "XDG_CONFIG_HOME" !in env.vars ==>
            r.value.path == env.vars["HOME"] + "/.config/rlgl/config")
  {
    if "HOME" in env.vars {
      var home := env.vars["HOME"];
      assert home + "/.rlgl" + "/config" == home + "/.rlgl/config";
      assert home + "/.config/rlgl" + "/config" == home + "/.config/rlgl/config";
      if "XDG_CONFIG_HOME" in env.vars {
        var x := env.vars["XDG_CONFIG_HOME"];
        assert x + "/rlgl" + "/config" == x + "/rlgl/config";
      }
    }
  }

  /** Setting `XDG_CONFIG_HOME` is itself an entry starting with `XDG`, so it selects the XDG branch. */
  lemma XdgConfigHomeForcesXdg(env: Env, existing: set<string>)
    requires Consistent(env)
    requires "HOME" in env.vars && "XDG_CONFIG_HOME" in env.vars
    ensures XdgEnvironment(env.entries)
    ensures ConfigPath(env, existing).Ok?
    ensures ConfigPath(env, existing).value.path == env.vars["XDG_CONFIG_HOME"] + "/rlgl/config"
  {
    var e := "XDG_CONFIG_HOME" + "=" + env.vars["XDG_CONFIG_HOME"];
    assert e in env.entries;
    var i :| 0 <= i < |env.entries| && env.entries[i] == e;
    assert e[..3] == "XDG";
    assert IsXdgEntry(env.entries[i]);
    ConfigPathRules(env, existing);
  }

  /** The directory `Config.Write` creates for the configuration file is `ConfigDir`. */
  lemma ConfigPathDirectory(env: Env, existing: set<string>)
    requires "HOME" in env.vars
    ensures ConfigPath(env, existing).Ok?
    ensures Basedir(ConfigPath(env, existing).value.path) == ConfigDir(env, env.vars["HOME"])
    ensures LastComponent(ConfigPath(env, existing).value.path) == "config"
  {
    var dir := ConfigDir(env, env.vars["HOME"]);
    assert ConfigPath(env, existing).value.path == dir + "/" + "config";
    BasedirOfChild(dir, "config");
  }

  // ---------------------------------------------------------------------------
  // Requests and the proxy transport.
  // ---------------------------------------------------------------------------

  datatype Verb = Get | Post

  datatype Header = Header(name: string, value: string)

  /** A request body: none, a multipart form with one file field, or a JSON object of strings. */
  datatype Body = NoBody | FormFile(field: string, path: string) | Json(fields: map<string, string>)

  /**
   * One HTTP request. Go keeps headers in an `http.Header` map, so the order
   * of `headers` carries no meaning; it is the order the code adds them in.
   */
  datatype Request = Request(verb: Verb, url: string, headers: seq<Header>, body: Body)

  /**
   * The process-wide transport: the library's default one (which is left as
   * it is), or a fixed proxy with the headers of its CONNECT.
   */
  datatype Transport = Default | ViaProxy(proxyUrl: string, connectHeaders: seq<Header>)

  /** `Basic` credentials for the proxy: the base 64 text of the bytes of `user:pass`. */
  function BasicAuth(auth: string): string {
    "Basic " + Base64.Encode(Utf8.Encode(auth))
  }

  /**
   * `setProxy`: an empty proxy keeps the transport; otherwise a transport
   * through that proxy replaces it, with one CONNECT header exactly when
   * credentials are given.
   */
  function SetProxy(current: Transport, proxy: string, auth: string): (t: Transport)
    ensures proxy == "" ==> t == current
    ensures proxy != "" ==> t.ViaProxy? && t.proxyUrl == proxy
    ensures proxy != "" ==> |t.connectHeaders| == (if auth == "" then 0 else 1)
  {
    if proxy == "" then current
    else if auth != "" then ViaProxy(proxy, [Header("Proxy-Authorization", BasicAuth(auth))])
    else ViaProxy(proxy, [])
  }

  /**
   * The credentials travel in one `Proxy-Authorization: Basic` header whose
   * base 64 text decodes to bytes that are the UTF-8 text of the credentials.
   */
  lemma ProxyDecision(current: Transport, proxy: string, auth: string)
    requires proxy != "" && auth != ""
    ensures var t := SetProxy(current, proxy, auth);
      && t.connectHeaders[0].name == "Proxy-Authorization"
      && HasPrefix(t.connectHeaders[0].value, "Basic ")
      && Base64.Decode(t.connectHeaders[0].value[6..]).Some?
      && Utf8.Decode(Base64.Decode(t.connectHeaders[0].value[6..]).value) == Utf8.Some(auth)
  {
    var encoded := Base64.Encode(Utf8.Encode(auth));
    assert BasicAuth(auth)[6..] == encoded;
    Base64.DecodeEncode(Utf8.Encode(auth));
    Utf8.DecodeEncode(auth);
  }

  /** The header of every authenticated request. */
  function Bearer(key: string): (h: Header)
    ensures h.name == "Authorization" && HasPrefix(h.value, "Bearer ") && h.value[7..] == key
  {
    Header("Authorization", "Bearer " + key)
  }

  // ---------------------------------------------------------------------------
  // Precondition chains.
  // ---------------------------------------------------------------------------

  /** One early-exit check: when it does not pass, `exitErr` reports the message. */
  datatype Check = Check(passes: bool, message: string)

  /** Runs checks in order; the first that fails decides the message. */
  function FirstFailure(checks: seq<Check>): (r: Checked<()>)
    ensures r.UsageError? <==> exists i :: 0 <= i < |checks| && !checks[i].passes
    ensures r.UsageError? ==>
      exists i :: 0 <= i < |checks| && !checks[i].passes && checks[i].message == r.message
        && forall j :: 0 <= j < i ==> checks[j].passes
  {
    if checks == [] then Ok(())
    else if !checks[0].passes then UsageError(checks[0].message)
    else
      var r := FirstFailure(checks[1..]);
      assert forall i :: 1 <= i < |checks| ==> checks[i] == checks[1..][i - 1];
      r
  }

  /** The outcome follows the checks: it is the first failure's usage error, or goes on when all pass. */
  predicate FollowsChecks<T>(o: Checked<T>, checks: seq<Check>) {
    match FirstFailure(checks)
    case UsageError(m) => o == UsageError(m)
    case Ok(_) => o.Ok?
  }

  /** What a command does once its checks pass: the transport, the requests, the saved configuration, the exit status. */
  datatype Run = Run(transport: Transport, sent: seq<Request>, config: Config, status: int)

  /** The exit status of a command. */
  function ExitStatus(o: Checked<Run>): int {
    match o
    case UsageError(_) => UsageStatus
    case Ok(run) => run.status
  }

  // ---------------------------------------------------------------------------
  // login
  // ---------------------------------------------------------------------------

  const MissingServerUrl := "Missing server URL"

  /** Where a new API key is made: a slash is put between the server URL and `get-api-key` unless the URL ends in one. */
  function ApiKeyUrl(server: string): (url: string)
    ensures HasPrefix(url, server) && HasSuffix(url, "/get-api-key")
  {
    var url := server + (if HasSuffix(server, "/") then "" else "/") + "get-api-key";
    assert url[..|server|] == server;
    if HasSuffix(server, "/") then
      var trimmed := server[..|server| - 1];
      assert server == trimmed + "/";
      assert url == trimmed + "/get-api-key";
      SuffixOfConcat(trimmed, "/get-api-key");
      url
    else
      assert url == server + "/get-api-key";
      SuffixOfConcat(server, "/get-api-key");
      url
  }

  lemma SuffixOfConcat(a: string, b: string)
    ensures HasSuffix(a + b, b)
  {
    assert (a + b)[|a + b| - |b|..] == b;
  }

  lemma SuffixOfLonger(a: string, u: string, x: string)
    requires HasSuffix(u, x)
    ensures HasSuffix(a + u, x)
  {
    assert (a + u)[|a + u| - |x|..] == u[|u| - |x|..];
  }

  const MissingApiKeyLead := "Missing API key.  Generate a new one at "

  /**
   * The message for a missing key ends with the page for a new one: the server
   * URL less one trailing slash, then `/get-api-key`.
   */
  function MissingApiKey(server: string): (m: string)
    ensures HasPrefix(m, MissingApiKeyLead)
    ensures HasPrefix(m[|MissingApiKeyLead|..], server)
    ensures HasSuffix(m, "/get-api-key")
    ensures m == MissingApiKeyLead + DropTrailingSlash(server) + "/get-api-key"
  {
    var url := ApiKeyUrl(server);
    ApiKeyUrlSlash(server);
    var m := MissingApiKeyLead + url;
    assert m[..|MissingApiKeyLead|] == MissingApiKeyLead;
    assert m[|MissingApiKeyLead|..] == url;
    SuffixOfLonger(MissingApiKeyLead, url, "/get-api-key");
    m
  }

  /** The URL with one trailing slash removed, if it has one. */
  function DropTrailingSlash(url: string): string {
    if HasSuffix(url, "/") then url[..|url| - 1] else url
  }

  /** The API-key page is the server URL, less one trailing slash, followed by `/get-api-key`. */
  lemma ApiKeyUrlSlash(server: string)
    ensures ApiKeyUrl(server) == DropTrailingSlash(server) + "/get-api-key"
    ensures HasPrefix(ApiKeyUrl(server), server)
  {
    if HasSuffix(server, "/") {
      var trimmed := server[..|server| - 1];
      assert server == trimmed + "/";
      calc {
        ApiKeyUrl(server);
        server + "" + "get-api-key";
        trimmed + "/" + "get-api-key";
        { assert "/" + "get-api-key" == "/get-api-key"; }
        trimmed + "/get-api-key";
      }
    } else {
      assert ApiKeyUrl(server) == server + "/" + "get-api-key";
      assert "/" + "get-api-key" == "/get-api-key";
    }
    assert ApiKeyUrl(server)[..|server|] == server;
  }

  function LoginChecks(key: string, args: seq<string>): seq<Check> {
    [Check(|args| != 0, MissingServerUrl),
     Check(key != "", MissingApiKey(if |args| == 0 then "" else args[0]))]
  }

  /**
   * The `login` action: the server URL is the first positional argument, the
   * flags give the key and the proxy settings. It asks the server for
   * `<url>/login` without credentials and saves the new configuration.
   */
  function Login(config: Config, key: string, proxy: string, proxyAuth: string, args: seq<string>): (o: Checked<Run>)
    ensures o.Ok? ==> o.value.status == 0
    ensures o.Ok? ==> |args| > 0 && forall r | r in o.value.sent :: HasPrefix(r.url, args[0]) && r.headers == []
  {
    if |args| == 0 then UsageError(MissingServerUrl)
    else if key == "" then UsageError(MissingApiKey(args[0]))
    else
      var server := args[0];
      Ok(Run(SetProxy(Default, proxy, proxyAuth),
             [Request(Get, server + "/login", [], NoBody)],
             config.(host := server, key := key, proxy := proxy, proxyAuth := proxyAuth),
             0))
  }

  /** `login` fails with the first failing check: no server URL, then no key. */
  lemma LoginFollowsChecks(config: Config, key: string, proxy: string, proxyAuth: string, args: seq<string>)
    ensures FollowsChecks(Login(config, key, proxy, proxyAuth, args), LoginChecks(key, args))
  {
    var checks := LoginChecks(key, args);
    assert checks[1..] == [checks[1]];
    assert checks[1..][1..] == [];
  }

  /**
   * A successful `login` replaces the whole configuration with the URL, key,
   * proxy and proxy credentials it was given, whatever was saved before, and
   * only its first positional argument matters.
   */
  lemma LoginOverwritesConfig(config: Config, key: string, proxy: string, proxyAuth: string, args: seq<string>)
    requires |args| >= 1 && key != ""
    ensures var o := Login(config, key, proxy, proxyAuth, args);
      && o.Ok?
      && o.value.config == Config(args[0], key, proxy, proxyAuth)
      && o == Login(NewConfig, key, proxy, proxyAuth, [args[0]])
      && o.value.sent == [Request(Get, args[0] + "/login", [], NoBody)]
      && o.value.transport == SetProxy(Default, proxy, proxyAuth)
  {
  }

  // ---------------------------------------------------------------------------
  // start
  // ---------------------------------------------------------------------------

  const LoginFirst := "Login to server first"

  function StartChecks(config: Config): seq<Check> {
    [Check(config.host != "" && config.key != "", LoginFirst)]
  }

  /** The `start` action: asks the server for a new player ID with the saved key. */
  function Start(config: Config): (o: Checked<Run>)
    ensures o.Ok? ==> o.value.config == config && o.value.status == 0
    ensures o.Ok? ==> forall r | r in o.value.sent :: HasPrefix(r.url, config.host) && Bearer(config.key) in r.headers
  {
    if config.host == "" || config.key == "" then UsageError(LoginFirst)
    else
      Ok(Run(SetProxy(Default, config.proxy, config.proxyAuth),
             [Request(Get, config.host + "/start", [Bearer(config.key)], NoBody)],
             config,
             0))
  }

  lemma StartFollowsChecks(config: Config)
    ensures FollowsChecks(Start(config), StartChecks(config))
  {
  }

  // ---------------------------------------------------------------------------
  // log
  // ---------------------------------------------------------------------------

  const MissingPlayerId := "Missing player ID"
  const TooManyArguments := "Too many arguments"

  /**
   * The report-log URL: under the host, with the player ID between two literal
   * double quotes at its end, so the ID can be read back verbatim.
   */
  function ReportLogUrl(host: string, id: string): (url: string)
    ensures |url| == |host| + |id| + 17
    ensures HasPrefix(url, host)
    ensures url[|host|..|host| + 16] == "/report-log?id=\""
    ensures url[|host| + 15] == '"' && url[|url| - 1] == '"'
    ensures url[|host| + 16..|url| - 1] == id
  {
    var url := host + "/report-log?id=\"" + id + "\"";
    assert url[..|host|] == host;
    url
  }

  function LogChecks(config: Config, id: string, args: seq<string>): seq<Check> {
    [Check(config.host != "", LoginFirst),
     Check(id != "", MissingPlayerId),
     Check(|args| == 0, TooManyArguments)]
  }

  /** The `log` action: fetches the evaluation log of a player, without credentials. */
  function Log(config: Config, id: string, args: seq<string>): (o: Checked<Run>)
    ensures o.Ok? ==> o.value.config == config && o.value.status == 0
    ensures o.Ok? ==> forall r | r in o.value.sent :: HasPrefix(r.url, config.host) && r.headers == []
  {
    if config.host == "" then UsageError(LoginFirst)
    else if id == "" then UsageError(MissingPlayerId)
    else if |args| != 0 then UsageError(TooManyArguments)
    else
      Ok(Run(SetProxy(Default, config.proxy, config.proxyAuth),
             [Request(Get, ReportLogUrl(config.host, id), [], NoBody)],
             config,
             0))
  }

  /** A successful `log` sends one unauthenticated `GET` of the report-log URL, through the saved proxy. */
  lemma LogRequests(config: Config, id: string, args: seq<string>)
    requires Log(config, id, args).Ok?
    ensures var run := Log(config, id, args).value;
      && run.sent == [Request(Get, ReportLogUrl(config.host, id), [], NoBody)]
      && run.transport == SetProxy(Default, config.proxy, config.proxyAuth)
  {
  }

  /** `log` checks the host, then the player ID, then that no positional argument is given; it needs no key. */
  lemma LogFollowsChecks(config: Config, id: string, args: seq<string>)
    ensures FollowsChecks(Log(config, id, args), LogChecks(config, id, args))
  {
    var checks := LogChecks(config, id, args);
    assert checks[1..] == [checks[1], checks[2]];
    assert checks[1..][1..] == [checks[2]];
    assert checks[1..][1..][1..] == [];
  }

  // ---------------------------------------------------------------------------
  // evaluate
  // ---------------------------------------------------------------------------

  const MissingPolicy := "Missing policy"
  const MissingReport := "Missing report"

  /** The JSON object sent to `/evaluate`; `name` is always empty and `title` only present when given. */
  function EvaluatePayload(policy: string, id: string, title: string, ref: string): (values: map<string, string>)
    ensures values.Keys == {"policy", "id", "name", "ref"} + (if title != "" then {"title"} else {})
    ensures values["policy"] == policy && values["id"] == id && values["name"] == "" && values["ref"] == ref
    ensures "title" in values ==> values["title"] == title
  {
    var values := map["policy" := policy, "id" := id, "name" := "", "ref" := ref];
    if title != "" then values["title" := title] else values
  }

  function EvaluateChecks(config: Config, policy: string, id: string, args: seq<string>): seq<Check> {
    [Check(config.host != "" && config.key != "", LoginFirst),
     Check(policy != "", MissingPolicy),
     Check(id != "", MissingPlayerId),
     Check(|args| != 0, MissingReport)]
  }

  /**
   * The `evaluate` action: uploads the report named by the first positional
   * argument, then asks for a verdict on the reference the upload returned.
   * `uploaded` is the upload's response body, `answer` the evaluation's.
   */
  function Evaluate(config: Config, policy: string, id: string, title: string, args: seq<string>,
                    uploaded: string, answer: string): (o: Checked<Run>)
    ensures o.Ok? ==> o.value.config == config
    ensures o.Ok? ==> forall r | r in o.value.sent :: HasPrefix(r.url, config.host) && Bearer(config.key) in r.headers
  {
    if config.host == "" || config.key == "" then UsageError(LoginFirst)
    else if policy == "" then UsageError(MissingPolicy)
    else if id == "" then UsageError(MissingPlayerId)
    else if |args| == 0 then UsageError(MissingReport)
    else
      var upload := Request(Post, config.host + "/upload", [Bearer(config.key)], FormFile("bin", args[0]));
      var values := EvaluatePayload(policy, id, title, uploaded);
      var evaluate := Request(Post, config.host + "/evaluate",
                              [Bearer(config.key), Header("Content-Type", "application/json")], Json(values));
      Ok(Run(SetProxy(Default, config.proxy, config.proxyAuth), [upload, evaluate], config,
             ExitCode(Classify(answer))))
  }

  /** `evaluate` checks login, then the policy, then the player ID, then that a report is named. */
  lemma EvaluateFollowsChecks(config: Config, policy: string, id: string, title: string, args: seq<string>,
                              uploaded: string, answer: string)
    ensures FollowsChecks(Evaluate(config, policy, id, title, args, uploaded, answer),
                          EvaluateChecks(config, policy, id, args))
  {
    var checks := EvaluateChecks(config, policy, id, args);
    assert checks[1..] == [checks[1], checks[2], checks[3]];
    assert checks[1..][1..] == [checks[2], checks[3]];
    assert checks[1..][1..][1..] == [checks[3]];
    assert checks[1..][1..][1..][1..] == [];
  }

  /**
   * A successful `evaluate` uploads only the first positional argument, in the
   * form field `bin`, then posts the payload built from the upload's answer
   * verbatim; its exit status is the verdict's.
   */
  lemma EvaluateRequests(config: Config, policy: string, id: string, title: string, args: seq<string>,
                         uploaded: string, answer: string)
    requires Evaluate(config, policy, id, title, args, uploaded, answer).Ok?
    ensures var run := Evaluate(config, policy, id, title, args, uploaded, answer).value;
      && |run.sent| == 2
      && run.sent[0] == Request(Post, config.host + "/upload", [Bearer(config.key)], FormFile("bin", args[0]))
      && run.sent[1].verb == Post && run.sent[1].url == config.host + "/evaluate"
      && run.sent[1].headers == [Bearer(config.key), Header("Content-Type", "application/json")]
      && run.sent[1].body == Json(EvaluatePayload(policy, id, title, uploaded))
      && run.status == ExitCode(Classify(answer))
      && run.transport == SetProxy(Default, config.proxy, config.proxyAuth)
      && run == Evaluate(config, policy, id, title, [args[0]], uploaded, answer).value
  {
  }

  // ---------------------------------------------------------------------------
  // The verdict.
  // ---------------------------------------------------------------------------

  /** The evaluation server's verdict, read from the start of its answer. */
  datatype Verdict = Pass | Fail | Unknown

  const GreenPrefix := "GREEN:"
  const RedPrefix := "RED:"

  /** The two verdict prefixes never both start the same answer. */
  lemma PrefixesExclusive(s: string)
    ensures !(HasPrefix(s, GreenPrefix) && HasPrefix(s, RedPrefix))
  {
    if HasPrefix(s, GreenPrefix) {
      assert s[0] == GreenPrefix[0] == 'G';
    }
    if HasPrefix(s, RedPrefix) {
      assert s[0] == RedPrefix[0] == 'R';
    }
  }

  /** Case-sensitive prefix test on the answer, colon included. */
  function Classify(answer: string): (v: Verdict)
    ensures v == Pass <==> HasPrefix(answer, GreenPrefix)
    ensures v == Fail <==> HasPrefix(answer, RedPrefix)
  {
    PrefixesExclusive(answer);
    if HasPrefix(answer, GreenPrefix) then Pass
    else if HasPrefix(answer, RedPrefix) then Fail
    else Unknown
  }

  /** The exit status of a verdict: a different one for each, and 2 for no verdict. */
  function ExitCode(v: Verdict): (code: int)
    ensures 0 <= code <= 2
    ensures code == 0 <==> v == Pass
    ensures code == 1 <==> v == Fail
  {
    match v
    case Pass => 0
    case Fail => 1
    case Unknown => 2
  }

  /** Exit status 0 exactly for a `GREEN:` answer, 1 exactly for `RED:`, 2 for anything else. */
  lemma VerdictExitCode(answer: string)
    ensures ExitCode(Classify(answer)) == 0 <==> HasPrefix(answer, GreenPrefix)
    ensures ExitCode(Classify(answer)) == 1 <==> HasPrefix(answer, RedPrefix)
    ensures ExitCode(Classify(answer)) == 2 <==> !HasPrefix(answer, GreenPrefix) && !HasPrefix(answer, RedPrefix)
  {
  }

  /** Lower case, a missing colon or a leading space each give status 2. */
  lemma VerdictIsExact()
    ensures Classify("GREEN: all passed") == Pass
    ensures Classify("RED:") == Fail
    ensures Classify("green: all passed") == Unknown
    ensures Classify("GREEN all passed") == Unknown
    ensures Classify(" RED: 3 failures") == Unknown
    ensures Classify("") == Unknown
  {
    assert !HasPrefix("green: all passed", GreenPrefix) by { assert "green: all passed"[0] != 'G'; }
    assert !HasPrefix("GREEN all passed", GreenPrefix) by { assert "GREEN all passed"[5] != ':'; }
    assert !HasPrefix(" RED: 3 failures", RedPrefix) by { assert " RED: 3 failures"[0] != 'R'; }
    assert !HasPrefix(" RED: 3 failures", GreenPrefix) by { assert " RED: 3 failures"[0] != 'G'; }
  }

  // ---------------------------------------------------------------------------
  // Properties across commands.
  // ---------------------------------------------------------------------------

  /**
   * Every failed check goes through `exitErr`: status 2 and no request sent;
   * `login`, `start` and `log` exit 0 otherwise, and `evaluate` with 0, 1 or 2.
   */
  lemma CommandsExitStatus(config: Config, key: string, proxy: string, proxyAuth: string, policy: string,
                           id: string, title: string, args: seq<string>, uploaded: string, answer: string)
    ensures var o := Login(config, key, proxy, proxyAuth, args);
      ExitStatus(o) == (if o.UsageError? then 2 else 0)
    ensures var o := Start(config); ExitStatus(o) == (if o.UsageError? then 2 else 0)
    ensures var o := Log(config, id, args); ExitStatus(o) == (if o.UsageError? then 2 else 0)
    ensures var o := Evaluate(config, policy, id, title, args, uploaded, answer);
      0 <= ExitStatus(o) <= 2 && (o.UsageError? ==> ExitStatus(o) == 2)
  {
  }

  /** After a login to a non-empty URL, `start` passes its check and sends the new key to that server. */
  lemma LoginThenStart(config: Config, key: string, proxy: string, proxyAuth: string, args: seq<string>)
    requires Login(config, key, proxy, proxyAuth, args).Ok? && args[0] != ""
    ensures var saved := Login(config, key, proxy, proxyAuth, args).value.config;
      && Start(saved).Ok?
      && Start(saved).value.sent == [Request(Get, args[0] + "/start", [Bearer(key)], NoBody)]
      && Start(saved).value.transport == Login(config, key, proxy, proxyAuth, args).value.transport
  {
  }

  /** With the configuration of a first run, `start`, `log` and `evaluate` stop before any request. */
  lemma NothingSentBeforeLogin(id: string, policy: string, title: string, args: seq<string>,
                               uploaded: string, answer: string)
    ensures Start(NewConfig) == UsageError(LoginFirst)
    ensures Log(NewConfig, id, args) == UsageError(LoginFirst)
    ensures Evaluate(NewConfig, policy, id, title, args, uploaded, answer) == UsageError(LoginFirst)
  {
  }

  /** `login https://srv.example --key ABC123` saves that host and key and exits 0. */
  lemma LoginScenario()
    ensures var o := Login(NewConfig, "ABC123", "", "", ["https://srv.example"]);
      && o.Ok? && o.value.config.host == "https://srv.example" && o.value.config.key == "ABC123"
      && o.value.transport == Default && ExitStatus(o) == 0
  {
  }

  /** `evaluate --policy strict --id deadbeef report.bin` with upload answer `ref-001` and verdict `GREEN: pass`. */
  lemma EvaluateScenario(config: Config)
    requires config.host != "" && config.key != ""
    ensures var o := Evaluate(config, "strict", "deadbeef", "", ["report.bin"], "ref-001", "GREEN: pass");
      && o.Ok? && ExitStatus(o) == 0
      && o.value.sent[1].body == Json(map["policy" := "strict", "id" := "deadbeef", "name" := "", "ref" := "ref-001"])
  {
    assert HasPrefix("GREEN: pass", GreenPrefix);
  }
}
