# Lollipop-Server in Dafny

Lollipop-Server is a command-line launcher for small HTTP services. Its
main script `lollipop.js` does one of several things:

- With no arguments, it serves every sub-directory of the working directory, each on its own port counting up from 9000.
- It prints help (`-h`).
- It archives a web site (`sucker`) or runs a script (`js`/`execute`).
- It starts a password-protected system monitor (`monitor`).
- It reads a configuration file of `( ... )` groups (`-c`).
- Otherwise, it serves one directory on the port given on the command line, optionally behind a password (`-p`).

A directory server (`mechs/server.js`, or `mechs/serverSec.js` behind HTTP
Basic authentication) answers each GET as follows:

- It resolves the request path against its root.
- It answers 403 when the resolved path does not start with the root's text. A sibling such as `/srv/www-secret` of root `/srv/www` still passes (see below).
- It answers 500 when `stat` or `readdir` fails.
- It sends the file when the path names a file.
- It builds a page of tiles, one per directory entry, each with a random colour.

The monitor (`mechs/sysmon/sysmon.js`) lists processes by running `ps` or
`tasklist` and cutting the output into records. Its own Basic
authentication middleware checks the password.

The model is pure functions over values, except where the source loops:

- `parseConfigFile`'s loop becomes `Config.ParseConfigFile` and `Config.ParseGroup`.
- The `-c` launch loop becomes `Launcher.Launch`.
- The no-argument port loop becomes `Launcher.ServeAll`.
- `randomColor` becomes `FileServer.RandomColor`.

Each of these methods is proved equal to a specification function. The
properties are proved about those functions.

Modules, one per file:

| module | file | models |
|---|---|---|
| `Wrappers` | `wrappers.dfy` | `Option` and `Result` |
| `Text` | `text.dfy` | JavaScript's `split`, `split(/\s+/)`, `filter(Boolean)`, `trim`, `join` and `indexOf`, plus truthiness of a possibly `undefined` string |
| `JsNumber` | `js_number.dfy` | `parseInt` with no radix; NaN is `None` |
| `PosixPath` | `paths.dfy` | `path.resolve`, `path.normalize` and `path.join` on POSIX |
| `Http` | `http.dfy` | responses: a status reply, a listing page, a download, or an exception thrown inside a callback |
| `BasicAuth` | `basic_auth.dfy` | the two authentication middlewares |
| `FileServer` | `file_server.dfy` | `safeResolve`, `randomColor` and the GET handler, for both server files |
| `Config` | `config.dfy` | `parseConfigFile` |
| `Launcher` | `launcher.dfy` | the argument dispatch and the two launch loops |
| `Sysmon` | `sysmon.dfy` | `getAllProcesses` |

`safeResolve` confines a path with a plain textual prefix test,
`resolvedPath.startsWith(root)`; there is no check at a path-separator
boundary. So a sibling whose name extends the root's last name passes:
`FileServer.SiblingPrefixAccepted` proves that `..` followed by the root's
last name with a suffix is accepted, and `FileServer.SrvWwwSibling` gives
the concrete case: against root `/srv/www`, the request `../www-secret`
reaches `/srv/www-secret`.

Some further behaviours of the code, each kept by the model:

- `Array.includes` finds NaN, so two servers in one configuration file without a port collide (`Config.PortlessServersCollide`).
- After `trim()`, the Windows parser's `slice(3)` drops the first process line (`Sysmon.ParseWindows`).
- The monitor answers a wrong password with 401, where the secured file server answers 403.
- Node's `listen` throws for a port that is NaN or outside 0 to 65535. In a `-c` run that ends the launch loop, like an unreadable script (`Launcher.ActionFor`, `Launcher.LaunchInOrder`).

## Model

| member | source | states |
|---|---|---|
| Text.At | lollipop.js:20-21 | `parts[i]` is defined exactly when `i` is in range, and is then that element; otherwise `undefined` |
| Text.SplitOn | mechs/serverSec.js:55 | `split(c)` yields at least one piece and no piece contains `c` |
| Text.SplitOnJoin | mechs/serverSec.js:55 | joining the pieces of `split(c)` with `c` gives back the string |
| Text.JoinSplitOn | mechs/sysmon/sysmon.js:62 | splitting lines joined by `\n` at `\n` gives back the lines |
| Text.SplitOnConcat | mechs/serverSec.js:55 | splitting `x + c + y` at `c` is the pieces of `x` followed by the pieces of `y` |
| Text.JoinWith | lollipop.js:16 | joining no strings gives the empty string and joining one gives it back |
| Text.JoinWithEnds | mechs/sysmon/sysmon.js:70 | a join starts with its first string and ends with its last |
| Text.JoinAppend | mechs/sysmon/sysmon.js:70 | joining two lists is joining each and putting the separator between |
| Text.SplitWs | mechs/sysmon/sysmon.js:69 | `split(/\s+/)` yields at least one piece and no piece holds white space |
| Text.SplitWsSeparated | mechs/sysmon/sysmon.js:69 | `split(/\s+/)` of words without white space separated by any non-empty runs of white space gives back exactly those words |
| Text.SplitWsRebuild | mechs/sysmon/sysmon.js:69 | every text is its `split(/\s+/)` pieces with the runs of white space between them put back: nothing is lost or added |
| Text.NonEmpty | lollipop.js:16 | `filter(Boolean)` keeps only non-empty strings that occur in the input, never more than the input has |
| Text.NonEmptyAppend | lollipop.js:16 | `filter(Boolean)` of two lists joined is the filter of each, joined, so order is kept |
| Text.NonEmptyCounts | lollipop.js:16 | every non-empty string is kept exactly as often as it occurs, and no empty one |
| Text.NonEmptyKeeps | mechs/sysmon/sysmon.js:63 | `filter(Boolean)` leaves a list of non-empty words unchanged |
| Text.Tokens | lollipop.js:16 | every token of a group is non-empty and free of white space |
| Text.TokensSeparated | lollipop.js:16 | the tokens of words separated by any runs of white space, with any white space before and after, are exactly those words |
| Text.TrimStart | lollipop.js:20 | the result is a suffix of `s` starting with no white space, and everything cut off is white space |
| Text.TrimEnd | mechs/sysmon/sysmon.js:62 | trailing trimming removes exactly a white-space suffix |
| Text.Trim | mechs/sysmon/sysmon.js:62 | the result is the slice of `s` after its leading white space, everything after it is white space, and it starts and ends with no white space |
| Text.TrimPadded | mechs/sysmon/sysmon.js:62 | `trim()` of a text surrounded by white space gives back the text when it starts and ends with no white space |
| Text.IndexOf | lollipop.js:63 | `indexOf` is the first position holding the element, and is within range exactly when the element occurs |
| JsNumber.DigitRun | lollipop.js:20 | `parseInt` reads the longest prefix of digits of the radix |
| JsNumber.ParseMagnitude | lollipop.js:20 | an unsigned numeral has no value exactly when no digit of its radix follows the optional `0x` prefix; its value is given by `DecimalDigitsMagnitude` and `HexMagnitude` |
| JsNumber.DecimalDigitsMagnitude | lollipop.js:20 | any run of decimal digits, leading zeros included, before text that does not go on with a digit, reads as the digits' value (a lone `0` before `x` is a hexadecimal prefix instead) |
| JsNumber.LeadingZeros | lollipop.js:20 | leading zeros do not change a numeral's value, in any radix |
| JsNumber.HexMagnitude | lollipop.js:20 | `0x` or `0X` then hexadecimal digits, before text that does not go on with one, reads as the digits' value in base 16 |
| JsNumber.DecimalPrefixMagnitude | lollipop.js:20 | the digits of `n` followed by text that starts with no digit read back as `n` (and `0` then `x` is a hexadecimal prefix instead) |
| JsNumber.ParseSigned | lollipop.js:20 | an empty numeral is NaN, and a negative value needs a leading `-`; `PlusSign` gives the effect of a `+` |
| JsNumber.PlusSign | lollipop.js:20 | a `+` in front of an unsigned numeral changes nothing: `+8080` reads as `8080` |
| JsNumber.ParseInt | lollipop.js:20 | `undefined` and blank text are NaN, and a negative value needs a `-` after the leading white space |
| JsNumber.ParseIntNumeral | lollipop.js:20 | any leading white space, then an optional `-`, the digits of `n` and text that starts with no digit (`8080abc`): `parseInt` is `n` or `-n` |
| JsNumber.ZeroPaddedNumeral | lollipop.js:20 | `parseInt` of a number written with leading zeros, such as `08080`, is that number |
| JsNumber.HexNumeral | lollipop.js:20 | `parseInt` of a hexadecimal numeral after any white space is the digits' value in base 16 |
| JsNumber.HexPort | lollipop.js:20 | `parseInt('0x1F90')` is 8080 |
| JsNumber.DecimalMagnitude | lollipop.js:20 | the decimal numeral of `n` reads back as `n` |
| JsNumber.NoDigitIsNaN | lollipop.js:52 | a token that starts with no digit, sign or space (such as `undefined`) is NaN |
| PosixPath.Resolve | mechs/server.js:9 | `path.resolve` always yields a normalised absolute path |
| PosixPath.Normalize | mechs/server.js:85 | `path.normalize` never yields an empty string, keeps an absolute path absolute and keeps a trailing `/` |
| PosixPath.NormalizeNormal | mechs/server.js:85 | normalising an already normalised absolute path gives it back |
| PosixPath.JoinPlainNormal | mechs/server.js:85 | plain names joined with `/` are already normalised |
| PosixPath.ResolveIdempotent | lollipop.js:61 | resolving a normalised absolute path gives it back, and so does resolving nothing against it |
| PosixPath.ResolveNormal | mechs/server.js:9 | when the joined path is already normalised, resolving changes nothing |
| PosixPath.ResolvePlain | mechs/server.js:9 | plain names resolved against a root give the root, `/`, and the names joined with `/` |
| PosixPath.ResolveSegments | mechs/server.js:9 | resolving slash-free segments against a root folds them onto the root's names |
| PosixPath.FoldAppend | mechs/server.js:9 | normalising two runs of segments is normalising the first, then the second |
| PosixPath.FoldPlain | mechs/server.js:9 | plain names are appended unchanged by normalisation |
| PosixPath.Names | mechs/server.js:10 | a normalised absolute path is `/` followed by its plain names joined with `/` |
| PosixPath.JoinPlainNames | mechs/server.js:85 | `path.join` of plain names is the names joined with `/` |
| BasicAuth.CredentialOf | mechs/serverSec.js:55 | a present header yields no token exactly when it holds no space |
| BasicAuth.SecuredGate | mechs/serverSec.js:48-63 | no or empty header: 401 with the challenge; matching password: next; other password: 403 with no challenge; no token: the middleware throws |
| BasicAuth.MonitorGate | mechs/sysmon/sysmon.js:97-117 | no or empty header: 401 `Authentication required`; matching password: next; other password: 401 `Authentication failed` with the challenge again; no token: throws |
| BasicAuth.HeaderToken | mechs/sysmon/sysmon.js:106-108 | for a header `<scheme> <token>` the credential is the second `:`-piece of the decoded token, whatever the scheme |
| BasicAuth.SecondPiece | mechs/serverSec.js:55 | the second `:`-piece of `user:password` is `password` when the user name has no colon |
| BasicAuth.AnyUserPasses | mechs/serverSec.js:55-58 | any user name with the right password is let through |
| BasicAuth.WrongPasswordRefused | mechs/serverSec.js:57-61 | a wrong password is refused with 403 by the secured server and with 401 by the monitor |
| BasicAuth.MissingPasswordAdmits | mechs/sysmon/sysmon.js:108-115 | a monitor started with no password admits a credential with no colon |
| FileServer.SafeResolve | mechs/server.js:8-14 | the resolved path is returned exactly when the root is a string prefix of it, and is then normalised and absolute; the root `/` accepts everything |
| FileServer.HexLetters | mechs/server.js:19-20 | each letter is the hexadecimal digit picked by its draw |
| FileServer.ColorOf | mechs/server.js:16-23 | a colour is `#` followed by six hexadecimal digits |
| FileServer.RandomColor | mechs/server.js:16-23 | the loop builds `#` and the six drawn digits in order |
| FileServer.TilesFrom | mechs/server.js:72-92 | a successful listing has one tile per entry |
| FileServer.TilesShowEntries | mechs/server.js:72-92 | the listing succeeds exactly when every entry can be `stat`ed; tile `i` then shows entry `i` (name, link, download flag, icon, colour); otherwise the first entry that cannot be `stat`ed is reported |
| FileServer.ListingTiles | mechs/server.js:72-92 | the whole listing of a directory: tiles exactly when every entry can be `stat`ed, tile `i` showing entry `i` |
| FileServer.HandleGet | mechs/server.js:51-102 | 403 exactly when the root is not a string prefix of the resolved path; 500 `Error reading path` exactly when `stat` fails; 500 `Error reading directory` exactly when `readdir` fails; a download exactly for a file, of that file; a page only for a readable directory, one tile per entry |
| FileServer.PageShowsEntries | mechs/server.js:65-95 | a page is served exactly when the path is accepted, names a readable directory, and every entry can be `stat`ed; tile `i` shows entry `i` |
| FileServer.SecuredIcons | mechs/serverSec.js:94-95 | in the secured listing a directory's tile has the folder icon and no download attribute; any other entry has the download icon and attribute |
| FileServer.HandleSecured | mechs/serverSec.js:47-111 | authentication runs first: no header gives 401 with the challenge; a wrong password gives 403; a header with no token throws; only an admitted request reaches the GET handler |
| FileServer.EmptyPathAccepted | mechs/server.js:52-53 | `GET /` resolves to the root itself and is accepted |
| FileServer.DescentAccepted | mechs/server.js:53 | a request of plain names is accepted and lands on the root joined with those names |
| FileServer.KnownFileDownloads | mechs/server.js:97-100 | requesting an existing file by its plain relative path downloads exactly that file |
| FileServer.LastName | mechs/server.js:10 | the last name of a normalised path other than `/` is a plain name |
| FileServer.ParentRejected | mechs/server.js:55-57 | `..` is rejected and answered with 403 |
| FileServer.SiblingPrefixAccepted | mechs/server.js:10 | `..` then the root's last name plus a suffix is accepted and reaches a path outside the root's directory |
| FileServer.SrvWwwParent | mechs/server.js:8-14 | against `/srv/www`, `..` is rejected |
| FileServer.SrvWwwSibling | mechs/server.js:8-14 | against `/srv/www`, `../www-secret` is accepted as `/srv/www-secret` |
| Config.CloseFrom | lollipop.js:11 | the lazy `.*?` stops at the nearest `)` and does not cross a line terminator |
| Config.CloseFromUnique | lollipop.js:11 | the first `)` on the line, with no line terminator before it, is the one the lazy match stops at |
| Config.GroupsEmpty | lollipop.js:11 | `match` finds nothing exactly when no `(` has a `)` after it on its line |
| Config.GroupsHead | lollipop.js:11 | a text starting with a group matches that group first, then the matches of the rest |
| Config.GroupsSkip | lollipop.js:11 | text with no `(` before the rest adds no match |
| Config.GroupsLayout | lollipop.js:11 | groups separated by text without `(` are matched exactly, in order |
| Config.GroupsAreGroups | lollipop.js:11 | every match of `/\(.*?\)/g` runs from `(` to the first `)` after it, on one line |
| Config.GroupTokens | lollipop.js:16 | a group's tokens are non-empty and free of white space |
| Config.GroupTokensOf | lollipop.js:16 | a group of words separated by any runs of white space, with any white space inside the brackets, has exactly those words as tokens |
| Config.OneWordGroup | lollipop.js:11-16 | a word without white space or `)` in brackets is a group whose only token is that word |
| Config.SplitGroups | lollipop.js:15-16 | one token list per group |
| Config.SplitGroupsAt | lollipop.js:15-16 | token list `k` is the tokens of group `k` |
| Config.FlagPassword | lollipop.js:63 | `null` exactly when there is no `-p`; `undefined` exactly when the first `-p` is last; otherwise the token after the first `-p` |
| Config.Describe | lollipop.js:19-66 | an empty group yields nothing; the first token picks monitor, sucker/js or server; a server's path is its first token resolved; monitors and servers carry `parseInt(parts[1])` |
| Config.GroupStep | lollipop.js:19-66 | a port-binding group whose port was seen before throws the duplicate-port error (naming the port, and whether it is a monitor); an empty group with a new port throws from `path.resolve`; otherwise the group's descriptor |
| Config.ParseGroups | lollipop.js:15-67 | a successful loop yields one descriptor per group, and the loop never fails with the not-iterable error |
| Config.ParseConfig | lollipop.js:9-70 | `parseConfigFile` fails as `for...of` on `null` exactly when the file has no group; on success one descriptor per group |
| Config.ParseGroup | lollipop.js:16-66 | the loop body's if-chain computes that step and records the group's port on success |
| Config.ParseConfigFile | lollipop.js:9-70 | the loop over the groups computes exactly `parseConfigFile`'s result or error |
| Config.ParseGroupsOk | lollipop.js:15-67 | from distinct recorded ports, the loop succeeds exactly when no group is empty and all ports stay distinct |
| Config.ParseGroupsDescribe | lollipop.js:15-67 | a successful loop yields one descriptor per group, in order, and their ports are the groups' ports |
| Config.DuplicateIsRepeated | lollipop.js:23-25 | a duplicate-port error names a port that occurs twice |
| Config.ParseConfigSpec | lollipop.js:9-70 | the parse succeeds exactly when there is at least one group, none is empty and no two port-binding groups share a port; it then yields one descriptor per group, in order, on pairwise distinct ports |
| Config.DuplicateSpec | lollipop.js:54-56 | a duplicate-port error names a port two groups of the file ask for |
| Config.PortlessServersCollide | lollipop.js:52-56 | two servers with no port, `(a) (b)` for any words `a` and `b` that are not `monitor`, `sucker` or `js`, both get NaN, which `includes` finds, so the file is rejected with a duplicate-port error |
| Config.DistinctSnoc | lollipop.js:23-26 | adding a port keeps the ports distinct exactly when it is new |
| Launcher.ReadFile | lollipop.js:10 | the text of the file at the path resolved against the working directory; nothing when the path is missing or unreadable |
| Launcher.ActionFor | lollipop.js:132-148 | a server or monitor whose port `listen` rejects (NaN or outside 0 to 65535) ends the run; otherwise a server is started secured exactly when its password is non-empty, with that password, its path and port; monitors and suckers start with their fields; a script runs with the file's text, and an unreadable script ends the run; nothing else ends it |
| Launcher.LaunchPlan | lollipop.js:130-150 | the plan has at most one action per descriptor and starts with the first descriptor's action |
| Launcher.LaunchOne | lollipop.js:132-148 | one pass of the launch loop's body, its `if` chain on the descriptor's kind, performs exactly the action the launch plan assigns to that descriptor |
| Launcher.LaunchPortsDistinct | lollipop.js:138-145 | when the configured ports are pairwise distinct, so are the ports the launch loop starts |
| Launcher.Launch | lollipop.js:130-150 | the launch loop performs exactly the launch plan |
| Launcher.LaunchInOrder | lollipop.js:130-150 | the plan acts on a prefix of the descriptors, one action each, in order, and stops right after the first action that ends the run (an unreadable script or a rejected port) |
| Launcher.LaunchComplete | lollipop.js:130-150 | when no descriptor's action ends the run, every descriptor is acted on |
| Launcher.LaunchPortsPrefix | lollipop.js:138-145 | the ports started are a prefix of the ports configured |
| Launcher.ConfigPortsDistinct | lollipop.js:126-150 | a `-c` run never starts two services on the same port |
| Launcher.Folders | lollipop.js:75-77 | a name is kept exactly when some entry of that name is a directory; no more names than entries |
| Launcher.FoldersAppend | lollipop.js:75-77 | the folders of two listings joined are the folders of each, joined, so listing order is kept |
| Launcher.FoldersAllDirectories | lollipop.js:75-77 | a listing of directories only gives every name, in listing order |
| Launcher.ServeAll | lollipop.js:79-82 | the no-argument loop starts folder `i` at `join(cwd, folder)` on port 9000 + `i` |
| Launcher.NoArgumentsServeFolders | lollipop.js:74-84 | with no arguments, exactly one server per sub-directory is started, on port 9000 + `i` |
| Launcher.StartPorts | lollipop.js:81 | a run of plain servers listens on one port per server |
| Launcher.ServeAllPorts | lollipop.js:79-82 | the no-argument ports are consecutive from 9000, and so pairwise distinct |
| Launcher.CliPassword | lollipop.js:154-155 | `null` exactly without `-p` or when the first `-p` is last; otherwise the word right after the first `-p` |
| Launcher.ConfigRun | lollipop.js:126-150 | a `-c` run always does something: an unreadable file or a rejected configuration ends it with that error |
| Launcher.Dispatch | lollipop.js:74-162 | any command does something, and every command but `-c` does exactly one thing |
| Launcher.Run | lollipop.js:74-162 | the script as written, with its loops, does exactly what the dispatch describes |
| Launcher.ToolCommands | lollipop.js:86-110 | `-h` prints help; `sucker` archives only when given two non-empty words; `js`/`execute` runs only when given a non-empty path; otherwise the usage line |
| Launcher.MonitorCommand | lollipop.js:114-123 | `monitor` starts exactly when the port parses to a non-zero number `listen` accepts and a non-empty password follows; a port that parses but is above 65535 or negative ends the run; otherwise the usage line |
| Launcher.CommandLineServer | lollipop.js:151-162 | a directory on the command line is served from its resolved path on `parseInt(args[1])`, secured exactly when a non-empty word follows the first `-p`, and then with that word as password; a port `listen` rejects ends the run |
| Launcher.FirstIndex | lollipop.js:154 | the position of the first `-p` is what `indexOf` returns |
| Sysmon.Command | mechs/sysmon/sysmon.js:42-51 | `ps aux` on macOS, `tasklist` on Windows, `ps aux --no-headers` elsewhere |
| Sysmon.Lines | mechs/sysmon/sysmon.js:62 | the trimmed output gives at least one line, none with a newline |
| Sysmon.ParseUnix | mechs/sysmon/sysmon.js:68-72 | one record per line, in order |
| Sysmon.ParseWindows | mechs/sysmon/sysmon.js:62-65 | the first three lines are dropped; every remaining line is one record, in order |
| Sysmon.GetAllProcesses | mechs/sysmon/sysmon.js:38-78 | a failed command gives no processes; otherwise the Windows or the `ps` parser, by operating system |
| Sysmon.UnixRecord | mechs/sysmon/sysmon.js:69-71 | a `ps` line always has a user and a command; with no second field there is no pid, cpu or mem and the command is empty; user, pid, cpu and mem hold no white space |
| Sysmon.WindowsRecord | mechs/sysmon/sysmon.js:63-64 | a `tasklist` record has no cpu; a user needs a pid and a pid needs a command; every field present is a non-empty word |
| Sysmon.UnixLineRoundTrip | mechs/sysmon/sysmon.js:69-71 | a `ps` line of user, pid, cpu, mem and command words, separated by any runs of white space, reads back as those fields, the command's words joined by single spaces |
| Sysmon.WindowsLineRoundTrip | mechs/sysmon/sysmon.js:63-64 | a `tasklist` line of at least five words, separated by any runs of white space and with any white space (such as `\r`) around it, reads back with the third word as user, the second as pid, the fifth as mem, the first as command, and no cpu |
| Sysmon.UnixOutputRoundTrip | mechs/sysmon/sysmon.js:68 | `ps` output of newline-joined lines, with any white space before and after (such as the final newline), gives one record per line, in order |
| Sysmon.LinesPadded | mechs/sysmon/sysmon.js:62 | trimming and splitting at `\n` gives back newline-joined lines, whatever white space surrounds them |
| Sysmon.WindowsOutputRoundTrip | mechs/sysmon/sysmon.js:62-65 | `tasklist` output of newline-joined lines, with any white space around it (such as CRLF), gives one record per line after the first three, in order |

## Left out

- Express itself is not modelled: `listen`, the route pattern `/:path*?` and the shared `app` that accumulates middleware across calls. A request reaches the model as its path already split at `/`.
- `express.static` is not modelled. It is mounted before the GET route, so in the real server an existing file may be sent by it instead of by `res.download`.
- The HTML of the page is not modelled: `generateHTML`, the SVG markup, `UI.js` and the Bootstrap links. A page is its list of tiles.
- Base64 and UTF-8 decoding by `Buffer` are a parameter (`decode`). Node's lenient decoder is not modelled.
- `Math.random` is a parameter: a sequence of draws, six per tile.
- Wall-clock timing and asynchrony are not modelled. The `stat` and `readdir` callbacks are modelled as if they ran immediately on a fixed file-system snapshot.
- `mechs/sucker.js` and `mechs/execute.js` are not part of this model. Archiving and running a script are recorded as actions.
- The system monitor's other endpoints are not modelled: the `systeminformation` queries, `toFixed` formatting and floating-point figures. Only the process list and the password middleware are modelled.
- SIGINT handling, console logging and the help text are not modelled. Help is the single `Help` action, and an error message is a `Complain` action naming the problem.
- The case where `readdirSync` of the working directory throws in the no-argument mode is not modelled. The listing is given.
- Launcher.ActionFor: `listen` is modelled only as its port check. A port that is NaN, negative or above 65535 makes `listen` throw, and the model records that as a `Complain(PortRejected)` action that ends the run; port 0 is accepted, as Node binds it to any free port. Ports taken by other programs are not modelled.
- Launcher.MonitorCommand: in the `monitor` command the throw from `listen` is not caught by the script, so Node ends the process with an uncaught exception. The model records it as the same `Complain(PortRejected)` action as a caught one.
- Launcher.ServeAll: with more than 56536 sub-directories the no-argument loop reaches port 65536, and `listen` throws there, uncaught. The model goes on counting ports and starts every folder.
- PosixPath.Normalize: its contract does not state that a relative path stays relative, nor the full folding of `.` and `..`. The folding is stated for resolved paths by `PosixPath.ResolveSegments`.
- An exception inside a request callback is the `Thrown` response. What Node then does with the process is not modelled.
- `parseInt` above 2^53 is not modelled: JavaScript loses precision there, while the model's integers are exact.
- Symbolic links are not modelled. `stat` follows them, so the file system maps each path to what `stat` reports.
- PosixPath.Resolve: the working directory and every server root must be absolute, as `process.cwd()` and an already resolved root always are.
- PosixPath.Join: it has no contract of its own. Its behaviour on plain names is stated by `PosixPath.JoinPlainNames`.
- Windows path semantics of `path` are not modelled. Only POSIX `path` is modelled.
