# cash cache engine: command parser and GET service loop

This project models the core of the `cash` in-memory key/value cache in Dafny:

- the **command-batch parser** `ParseCommandsFromString`, which turns a text
  such as `GET a; get b` into a list of commands;
- the **service loop** `runDBService` of the `Cache`, which owns the
  `values` map and answers one command at a time;
- the **error values** `DBError` that the loop answers with.

The files are:

- `strings.dfy` (module `GoStrings`): the parts of Go's `strings` package
  the parser relies on, restricted to ASCII: `Split` with a one-character
  separator (with `Join`, its inverse), `TrimSpace` and `ToUpper`.
- `errors.dfy` (module `CacheErrors`): the five error kinds, `DBError`, its
  `Error()` text and `Kind()`.
- `commands.dfy` (module `CacheCommands`): operations, `Command`, the
  fragment-by-fragment specification `Parse`, the imperative parser
  `ParseCommandsFromString` proved equal to it, a reference definition
  `Expected` stated without the loop, and the parser's properties.
- `cache.dfy` (module `CacheStore`): `Response`, the reply function
  `Reply`, and the class `Cache` with its `values` map, the constructor
  `New`, the one-command method `Step` and the loop `RunDBService`.

The Go constructor `NewCommand(operation, args)` is the datatype
constructor `Command(operation, args)`. A channel send is modelled by the
returned `Response`: `Err(e)` is a send on the error channel, `Out(v)` a
send on the output channel, and `Silent` is no send at all.

The parser splits each fragment on a single space character, not on white
space in general, so `GET  a` (two spaces) gives the arguments `["", "a"]`
(internal/cache/commands.go:43). The loop handles only GET: a GET that
succeeds sends only its value, and every other operation leaves the `switch`
with no reply (internal/cache/cache.go:19-43).

## Model

| member | source | states |
|---|---|---|
| GoStrings.Split | internal/cache/commands.go:34 | never returns an empty list, even for the empty text |
| GoStrings.SplitPiecesFree | internal/cache/commands.go:34 | no piece contains the separator |
| GoStrings.SplitJoin | internal/cache/commands.go:34 | joining the pieces with the separator gives back the input |
| GoStrings.SplitConcat | internal/cache/commands.go:34 | a separator between two texts splits them independently: `Split(a + sep + b) == Split(a) + Split(b)` |
| GoStrings.SplitWithoutSeparator | internal/cache/commands.go:43 | a text without the separator is the only piece |
| GoStrings.TrimSpace | internal/cache/commands.go:38 | the result is empty exactly when the input is all ASCII white space, and otherwise neither starts nor ends with white space |
| GoStrings.TrimSpaceIsInfix | internal/cache/commands.go:38 | the result is a contiguous slice of the input, starting where the leading white space ends, with only white space before and after it |
| GoStrings.TrimSpaceOfTrimmed | internal/cache/commands.go:38 | text with no white space at either end is its own trim |
| GoStrings.ToUpper | internal/cache/commands.go:48 | same length, and each character is its ASCII upper case |
| GoStrings.NoLowerAfterToUpper | internal/cache/commands.go:48 | no lower-case ASCII letter is left after upper-casing |
| GoStrings.ToUpperIdempotent | internal/cache/commands.go:48 | upper-casing twice is upper-casing once |
| CacheErrors.DBError.Error | internal/cache/error.go:21-23 | the text is the prefix `ERROR '`, the kind, the infix `' MESSAGE '`, the message and a closing quote, each at its position |
| CacheErrors.DBError.Kind | internal/cache/error.go:25-27 | returns exactly the kind the error was built with, which is the text `Error()` shows right after its prefix |
| CacheErrors.ErrorDeterminesError | internal/cache/error.go:16-23 | for kinds without a quote, two errors with the same text have the same kind and message |
| CacheErrors.KindsDistinct | internal/cache/error.go:7-13 | the five kinds are pairwise different strings |
| CacheErrors.KindsUnquoted | internal/cache/error.go:7-13 | none of the five kinds contains a quote, so `ErrorDeterminesError` applies to all of them |
| CacheCommands.ParseFragment | internal/cache/commands.go:38-57 | one loop iteration: a fragment is skipped exactly when it is all white space; otherwise it is a command with a valid operation whose arguments are the single-space tokens of the trimmed text after the first, or it is rejected with "invalid operation" |
| CacheCommands.ParseCommandText | internal/cache/commands.go:43-57 | a non-blank trimmed fragment is either a command whose operation is one of the four valid ones, or rejected with "invalid operation"; never "empty command" |
| CacheCommands.ParseFragments | internal/cache/commands.go:37-58 | on success at most one command per fragment, each with an operation among GET, SET, DELETE, EXPIRES; the only error ever returned is "invalid operation", so the "empty command" branch is unreachable |
| CacheCommands.ParseCommandsFromString | internal/cache/commands.go:33-61 | the loop returns exactly `Parse(commandsString)`: the commands of the fragments seen, or the first fragment's error |
| CacheCommands.ParseFragmentsAppend | internal/cache/commands.go:37-58 | parsing two lists of fragments in a row is parsing each and keeping the first error or concatenating the commands |
| CacheCommands.ParseFragmentsIsExpected | internal/cache/commands.go:33-61 | the parse equals the reference definition: one command per non-blank fragment in input order if every such fragment names a valid operation, "invalid operation" otherwise |
| CacheCommands.ParseFailsIff | internal/cache/commands.go:48-52 | the batch fails if and only if some non-blank fragment's upper-cased first token is not a valid operation, and the error is then "invalid operation" |
| CacheCommands.ParseError.Message | internal/cache/commands.go:45-51 | the message is one of the two texts the parser creates, "empty command" or "invalid operation", and its first letter tells which error it is |
| CacheCommands.ParseFailureMessage | internal/cache/commands.go:50-51 | a rejected batch reports the text "invalid operation" |
| CacheCommands.ParseCommandsInOrder | internal/cache/commands.go:43-57 | on success the k-th command comes from the k-th non-blank fragment: operation is its first single-space token upper-cased, arguments are the remaining tokens verbatim |
| CacheCommands.NonBlankHas | internal/cache/commands.go:38-41 | every fragment that is not blank after trimming is kept |
| CacheCommands.InvalidFragmentAborts | internal/cache/commands.go:50-52 | one non-blank fragment with an unknown operation makes the whole batch "invalid operation", whatever came before it |
| CacheCommands.ParseConcat | internal/cache/commands.go:34-58 | `Parse(s1 + ";" + s2)` is `Parse(s1)` followed by `Parse(s2)`, first failure winning |
| CacheCommands.ParseConcatSuccess | internal/cache/commands.go:34-58 | when both halves parse, `s1 + ";" + s2` gives the commands of `s1` then those of `s2` |
| CacheCommands.WhitespaceOnlyIsEmpty | internal/cache/commands.go:38-41 | input made only of white space, the empty string included, is an empty batch |
| CacheCommands.TrailingSemicolon | internal/cache/commands.go:34-41 | a trailing `;` changes nothing |
| CacheCommands.OnlySeparators | internal/cache/commands.go:34-41 | `;;` is an empty batch |
| CacheCommands.OperationCaseInsensitive | internal/cache/commands.go:43-48 | two fragments whose trimmed text differs only in the case of the operation token parse to the same outcome |
| CacheCommands.GetInAnyCase | internal/cache/commands.go:48 | `get a` and `GET a` both parse to the command GET with argument `a` |
| CacheCommands.DoubleSpaceArgument | internal/cache/commands.go:43 | `GET  a` parses to GET with the arguments `""` and `a` |
| CacheCommands.InvalidAfterValid | internal/cache/commands.go:50-52 | `GET a;FOO b` is "invalid operation": the valid first command is not returned |
| CacheStore.Reply | internal/cache/cache.go:19-43 | silent exactly for operations other than GET; a value exactly for a one-argument GET of a present key, and then that key's value; otherwise "invalid request" with `missing parameter 'key'` for a wrong argument count, or "key does not exist" with `key '<key>' does not exist`; never the success sentinel kind |
| CacheStore.Replies | internal/cache/cache.go:16-44 | one reply per command, in order, each the reply to that command against the same map |
| CacheStore.Cache.New | internal/cache/cache.go:9-13 | a new cache has an empty map |
| CacheStore.Cache.Step | internal/cache/cache.go:17-42 | the reply to one command is `Reply(values, cmd)` and the map is unchanged |
| CacheStore.Cache.RunDBService | internal/cache/cache.go:15-45 | the replies to a command sequence are `Replies(values, cmds)` and the map after is the map before |
| CacheStore.Sent | internal/cache/cache.go:19-43 | every sent reply is a non-silent reply of the run, and every non-silent reply of the run is sent |
| CacheStore.SentAppend | internal/cache/cache.go:16-44 | the replies of two runs in a row are sent as those of the first run, then those of the second, in order |
| CacheStore.OneReplyPerGet | internal/cache/cache.go:19-43 | exactly one reply is sent per GET command and none for any other operation |
| CacheStore.ServeFromNew | internal/cache/cache.go:9-13 | from a new cache every one-argument GET answers "key does not exist" with its message, and no command ever gets a value |

## Left out

- The network server (internal/server/server.go) and the program entry (main.go) are not part of this model: sockets, per-connection goroutines, flags and logging. The server reads the error channel before the output channel, while a successful GET sends only on the output channel; the server also calls `cache.New` with a file name and `Cleanup`, neither of which exists in the cache code. The model does not include the server, so it does not capture this mismatch.
- `Cache.Run` (internal/cache/cache.go:47-55) and the channels of `runDBService`: the goroutine and the unbuffered channels are concurrency plumbing. A channel send is the returned `Response`, and the endless loop is `RunDBService` over a finite sequence of commands.
- GoStrings.TrimSpace: models ASCII input only; Go also trims Unicode white space such as U+0085 and U+00A0, which the model keeps. On a fragment with a leading U+00A0, `ParseFailsIff` and `ParseCommandsInOrder` therefore describe the model, not the Go program.
- GoStrings.ToUpper: models ASCII input only; Go also raises non-ASCII letters, which the model keeps. On input such as `ſet a`, which Go upper-cases to `SET`, `ParseFailsIff` and `ParseCommandsInOrder` therefore describe the model, not the Go program.
- `fmt.Sprintf` in the error messages is modelled as string concatenation, which gives the same text for string arguments.
- TTL expiry, the SET, DELETE and EXPIRES semantics, compression, the persistence log and the background sweeper have no implementation in the cache code, so the model has none either.
