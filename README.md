# rlgl client decision rules in Dafny

A model of the decision logic inside `rlgl`, the command-line client of Red Light Green Light.
The client logs in to an evaluation server, mints player IDs, fetches evaluation logs, and uploads
a test report to obtain a GREEN or RED verdict. The model covers:

- where the client keeps its configuration file (`getConfigPath`, `xdgSupport`, `basedir`);
- how the proxy transport is chosen (`setProxy`), with the `Proxy-Authorization: Basic` value
  built from base 64 (section 4 of RFC 4648) over the UTF-8 bytes of the credentials;
- the four commands `login`, `start`, `log` and `evaluate`: their ordered precondition checks,
  each ending through `exitErr` with status 2 before any request, and, when the checks pass,
  the requests they send, the configuration `login` saves and the exit status;
- the mapping from the evaluation server's answer to the exit status.

Files:

- `rlgl.dfy`: module `Rlgl`, all the decision rules.
- `base64.dfy`: module `Base64`, the standard encoder and a decoder as its partner.
- `utf8.dfy`: module `Utf8`, the bytes of a string (Go's `[]byte(s)`) and a decoder as its partner.

Modelling choices:

- A command is a function from the saved configuration, its flags and its positional arguments
  to `Checked<Run>`. This is either `UsageError(message)` (the process exits with status 2 and
  sends nothing) or `Ok(Run(transport, sent, config, status))`.
- The server's answers that a command needs are parameters: the upload response and the
  verdict text for `evaluate`.
- The environment is `Env(entries, vars)`: the `NAME=value` entries of `os.Environ()` and the
  map `os.LookupEnv` reads. "A file exists at this path" is a set of paths given as input.
- `xdgSupport` and `getConfigPath` are step-by-step code in the source. They are methods here,
  proved against the functions `XdgEnvironment` and `ConfigPath`.
- Every precondition chain is also written as a table of `Check`s. A lemma proves that the
  command ends with the message of the first failing check, and proceeds when all pass.

Notes on what the code does, which the model follows:

- `xdgSupport` matches each whole `os.Environ()` entry against `^XDG_*`, whose underscore is
  optional. So any entry starting with `XDG` counts (`XDGFOO=1`, `XDG=1`), not only variables
  whose name begins with `XDG_`. The model proves the regular expression equals "starts with
  `XDG`" (`XdgPatternIsPrefix`).
- `evaluate` rejects only zero positional arguments; it uploads the first and ignores any
  others (`EvaluateRequests`).
- `log` checks that a host is saved but not that a key is (`LogFollowsChecks`).
- `setProxy` changes nothing when no proxy is given. The transport in effect is then Go's default
  transport, which is written `Default` here.

## Model

| member | source | states |
|---|---|---|
| `Rlgl.Split` | rlgl/rlgl.go:115 | `strings.Split` on `/` gives at least one piece, no piece holds a slash, and there is exactly one piece iff the string has no slash |
| `Rlgl.JoinSplit` | rlgl/rlgl.go:115-116 | joining the pieces of a split with `/` gives the original string back |
| `Rlgl.JoinSnoc` | rlgl/rlgl.go:116 | joining one more piece appends `/` and that piece |
| `Rlgl.SplitJoin` | rlgl/rlgl.go:116 | splitting a `strings.Join` of slash-free pieces gives back those pieces (the other half of the round trip with `JoinSplit`) |
| `Rlgl.LastComponent` | rlgl/rlgl.go:115-116 | the last piece of the split holds no slash, and is the whole path when the path has none |
| `Rlgl.Basedir` | rlgl/rlgl.go:114-117 | `basedir(p)` is a prefix of `p`; with no slash it is `""`; otherwise `basedir(p) + "/" + last == p` |
| `Rlgl.SlashSplitUnique` | rlgl/rlgl.go:114-117 | a path is `dir + "/" + name` with a slash-free `name` in only one way |
| `Rlgl.BasedirOfChild` | rlgl/rlgl.go:114-117 | `basedir(dir + "/" + name) == dir` for every slash-free `name` |
| `Rlgl.Underscores` | rlgl/rlgl.go:121 | the `_*` part of the pattern: a string of `n` characters, every one an underscore |
| `Rlgl.XdgPatternIsPrefix` | rlgl/rlgl.go:121-123 | an entry matches `^XDG_*` iff it starts with `XDG`, because the underscore is optional |
| `Rlgl.XdgSupport` | rlgl/rlgl.go:120-128 | the early-return scan is true iff some environment entry matches `^XDG_*` |
| `Rlgl.GetConfigPath` | rlgl/rlgl.go:91-112 | the method that sets the default path and overwrites it in the XDG case computes `ConfigPath` |
| `Rlgl.ConfigPath` | rlgl/rlgl.go:91-112 | `HOME` unset is the only usage error, with `$HOME not set`; otherwise the path ends in `/config` and the flag says whether a file is there |
| `Rlgl.ConfigPathRules` | rlgl/rlgl.go:91-109 | `HOME` unset gives `exitErr("$HOME not set")`; else `$HOME/.rlgl/config` without XDG; `$XDG_CONFIG_HOME/rlgl/config` with XDG; `$HOME/.config/rlgl/config` with XDG and `XDG_CONFIG_HOME` unset; the flag says whether a file is at the path |
| `Rlgl.XdgConfigHomeForcesXdg` | rlgl/rlgl.go:99-104 | in a consistent environment, setting `XDG_CONFIG_HOME` by itself selects the XDG branch and its path |
| `Rlgl.ConfigPathDirectory` | rlgl/rlgl.go:67-76 | the directory `Config.Write` creates (`basedir` of the path) is the configuration directory, and the file name is `config` |
| `Rlgl.SetProxy` | rlgl/rlgl.go:130-155 | an empty proxy leaves the transport unchanged; otherwise the transport goes through that proxy, with one CONNECT header when credentials are given and none otherwise |
| `Rlgl.ProxyDecision` | rlgl/rlgl.go:138-145 | with credentials, the CONNECT header is `Proxy-Authorization: Basic <b64>`, and the base 64 text decodes, then reads as UTF-8, back to the credentials themselves |
| `Base64.Encode` | rlgl/rlgl.go:140 | `StdEncoding.EncodeToString` output is a whole number of four-character quanta, and empty only for no bytes |
| `Base64.EncodeLength` | rlgl/rlgl.go:140 | the encoding has exactly 4 * ceil(n / 3) characters for n bytes |
| `Base64.DecodeEncode` | rlgl/rlgl.go:140 | decoding the base 64 text gives back exactly the encoded bytes |
| `Base64.EncodeAlphabet` | rlgl/rlgl.go:140 | every character of the encoding is in the RFC 4648 alphabet or is `=` padding |
| `Utf8.EncodeChar` | rlgl/rlgl.go:140 | one character is one to four bytes: one byte equal to the character below U+0080, else a lead byte from 0xC0 and continuation bytes 0x80-0xBF |
| `Utf8.Encode` | rlgl/rlgl.go:140 | `[]byte(auth)`: between one and four bytes per character, empty only for the empty string |
| `Utf8.DecodeEncodeChar` | rlgl/rlgl.go:140 | the lead byte of an encoded character announces its length, and the bytes decode back to the character |
| `Utf8.DecodeEncode` | rlgl/rlgl.go:140 | decoding the bytes of a string gives back exactly that string |
| `Utf8.EncodeInjective` | rlgl/rlgl.go:140 | two strings with the same bytes are the same string |
| `Utf8.EncodeAscii` | rlgl/rlgl.go:140 | ASCII credentials are their own bytes, one per character |
| `Utf8.EncodeAppend` | rlgl/rlgl.go:140 | the bytes of a concatenation are the concatenation of the bytes |
| `Rlgl.FirstFailure` | rlgl/rlgl.go:62-65 | an ordered chain of `exitErr` checks fails iff some check fails, and then with the message of the first failing one |
| `Rlgl.CommandsExitStatus` | rlgl/rlgl.go:62-65 | a failed check of any command exits with status 2; `login`, `start` and `log` otherwise exit 0; `evaluate` exits 0, 1 or 2 |
| `Rlgl.HasPrefixPointwise` | rlgl/rlgl.go:452-455 | `strings.HasPrefix` holds exactly when the string begins, character for character, with the prefix |
| `Rlgl.HasSuffixPointwise` | rlgl/rlgl.go:263 | `strings.HasSuffix` holds exactly when the string ends, character for character, with the suffix |
| `Rlgl.ApiKeyUrl` | rlgl/rlgl.go:261-271 | the API-key page starts with the server URL and ends with `/get-api-key` |
| `Rlgl.MissingApiKey` | rlgl/rlgl.go:261-271 | the missing-key message `login` prints is the fixed text, then the server URL less one trailing slash, then `/get-api-key` |
| `Rlgl.ApiKeyUrlSlash` | rlgl/rlgl.go:261-271 | the API-key page is the server URL less one trailing slash, followed by `/get-api-key`, and starts with the URL |
| `Rlgl.Login` | rlgl/rlgl.go:255-292 | a successful `login` exits 0 and sends only unauthenticated requests to the given server URL |
| `Rlgl.LoginFollowsChecks` | rlgl/rlgl.go:257-271 | `login` fails first with "Missing server URL" (no positional argument), then with the missing-API-key message; it sends nothing on failure |
| `Rlgl.LoginOverwritesConfig` | rlgl/rlgl.go:273-290 | a successful `login` saves exactly (URL, key, proxy, proxy-auth) whatever was saved before, sends `GET <url>/login` through the chosen proxy, and ignores extra positional arguments |
| `Rlgl.Start` | rlgl/rlgl.go:298-326 | a successful `start` keeps the configuration, exits 0, and every request goes to the saved host with `Authorization: Bearer <key>` |
| `Rlgl.StartFollowsChecks` | rlgl/rlgl.go:300-302 | `start` fails with "Login to server first" iff the host or the key is empty |
| `Rlgl.Bearer` | rlgl/rlgl.go:306-309 | the header is `Authorization`, its value is `Bearer ` and then the saved key verbatim |
| `Rlgl.ReportLogUrl` | rlgl/rlgl.go:358 | the report-log URL is the host, then the path `/report-log?id="`, then the player ID verbatim, then a closing `"` |
| `Rlgl.Log` | rlgl/rlgl.go:340-371 | a successful `log` keeps the configuration, exits 0, and sends only unauthenticated requests to the saved host |
| `Rlgl.LogRequests` | rlgl/rlgl.go:356-358 | a successful `log` sends exactly one `GET` of the report-log URL for the saved host and the player ID, without headers, through the saved proxy |
| `Rlgl.LogFollowsChecks` | rlgl/rlgl.go:342-354 | `log` checks, in order, the host ("Login to server first"), the player ID ("Missing player ID"), then no positional argument ("Too many arguments"); the key is not checked |
| `Rlgl.EvaluatePayload` | rlgl/rlgl.go:424-427 | the payload keys are exactly `policy`, `id`, `name`, `ref`, plus `title` iff the title is non-empty; `name` is `""`, and `ref` is the upload answer verbatim |
| `Rlgl.Evaluate` | rlgl/rlgl.go:398-462 | a successful `evaluate` keeps the configuration, and every request goes to the saved host with `Authorization: Bearer <key>` |
| `Rlgl.EvaluateFollowsChecks` | rlgl/rlgl.go:400-414 | `evaluate` checks, in order, host and key, the policy, the player ID, then at least one positional argument ("Missing report") |
| `Rlgl.EvaluateRequests` | rlgl/rlgl.go:416-460 | a successful `evaluate` posts the first positional argument alone in form field `bin` to `<host>/upload`, then posts the JSON payload to `<host>/evaluate` with the bearer and `application/json` headers, through the saved proxy; its status is the verdict's |
| `Rlgl.PrefixesExclusive` | rlgl/rlgl.go:452-460 | no answer starts with both `GREEN:` and `RED:` |
| `Rlgl.Classify` | rlgl/rlgl.go:452-460 | the verdict is Pass iff the answer starts with `GREEN:`, and Fail iff it starts with `RED:` |
| `Rlgl.ExitCode` | rlgl/rlgl.go:452-460 | each verdict has its own exit status: 0 for GREEN, 1 for RED, 2 for neither |
| `Rlgl.VerdictExitCode` | rlgl/rlgl.go:452-460 | exit status 0 iff the answer starts with `GREEN:`, 1 iff it starts with `RED:`, 2 iff neither |
| `Rlgl.VerdictIsExact` | rlgl/rlgl.go:452-460 | the match is case-sensitive, needs the colon, and is anchored at the first character |
| `Rlgl.LoginThenStart` | rlgl/rlgl.go:286-308 | after a login to a non-empty URL, `start` passes its check and sends the new key to that URL through the same proxy |
| `Rlgl.NothingSentBeforeLogin` | rlgl/rlgl.go:213-215 | with the empty configuration written on first run, `start`, `log` and `evaluate` stop with "Login to server first" |
| `Rlgl.LoginScenario` | rlgl/rlgl.go:255-291 | `login https://srv.example --key ABC123` saves that host and key, installs no proxy, and exits 0 |
| `Rlgl.EvaluateScenario` | rlgl/rlgl.go:398-460 | `evaluate --policy strict --id deadbeef report.bin` with upload answer `ref-001` sends the four-key payload without `title`, and exits 0 on `GREEN: pass` |

## Left out

- HTTP traffic (`http.Get`, `client.Do`, reading bodies) is not modelled; a command is described by the requests it would send. The responses of `/login`, `/start` and `/report-log` are only printed, so they are not modelled either.
- Transport and read failures are not modelled. A failed request in `login`, `start` or `log` ends through `exitErr` with status 2. A failed body read, and any failure in `evaluate`, goes through `log.Fatal`, whose status 1 is the same as a RED verdict.
- The process-wide `http.DefaultTransport` is not a global here. Each command's `Run` records the transport in effect, starting from `Default`.
- `Default` stands for Go's default transport. That transport looks up `HTTP_PROXY`, `HTTPS_PROXY` and `NO_PROXY` in the environment, and this lookup is not modelled, so `Default` does not mean a direct connection.
- `url.Parse` failures of the proxy URL and `http.NewRequest` failures for malformed hosts are not modelled (URL parsing).
- The multipart encoding of the upload is not modelled. Its `Content-Type` header carries a random boundary and is left out of the upload request; the body is modelled as the form field name and the file path.
- The JSON byte encoding of the payload (escaping, key order) is not modelled; the payload is a `map<string, string>`.
- TOML encoding and decoding of the configuration, and `os.Stat`, `MkdirAll`, `OpenFile` and `Open`, are not modelled. No configuration round trip is claimed. On first run the empty configuration (`NewConfig`) is the one in effect.
- The `urfave/cli` flag parsing, the command aliases, the help output, `fatih/color` output, the version string and `time.Now` are not modelled. Flags arrive as plain strings that default to `""`.
- Strings are sequences of Unicode scalar values. Go strings holding invalid UTF-8 cannot be expressed, so `[]byte(auth)` is modelled as the UTF-8 encoding.
