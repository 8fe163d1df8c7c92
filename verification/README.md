# ducq command-line client: configuration and retry orchestrator

This project is a Dafny model of the two sequential parts of the ducq
command-line client (`main.c`). The client sends one command, route and
payload to a ducq server and then listens for the events the server sends.

- **Configuration resolution (`get_config`).** If the first argument is
  exactly `--help`, the process exits before anything else happens.
  Otherwise the resolver starts from built-in defaults: host `localhost`,
  port `9090`, command `list_commands`, route `*` and an empty payload.
  Next comes the optional Lua file `~/.config/ducq.lua`. It can override
  `host` and `port` when loading and running the file both succeed and the
  global holds a string. The host value is cut to 255 bytes and the
  port value to 5 bytes. Last comes the walk over the command-line arguments.
  Each of `--host/-h`, `--port/-p`, `--command/-c`, `--route/-r` and
  `--payload/-l` takes the next token as its value, and the last occurrence
  of a flag wins.
- **The retry orchestrator (`emit`).** It creates one TCP handle. Then it
  runs up to three attempts, each doing close → connect → set a timeout of
  60 → send → listen. Before attempt `k > 1` it sleeps `k * 5`
  seconds. A nonzero state from connect, timeout or send ends that attempt.
  If listen returns a state below `DUCQ_ERROR`, the loop ends. The same
  handle is returned in every case.

The transport library is outside the model. What its calls return is an
input: an `Attempt` record per attempt, holding the states that connect,
timeout, send and listen return. The threshold `DUCQ_ERROR` is defined by
that library, so it is a parameter (`hardError`). Instead of doing I/O,
`Emit` returns the calls it makes as a trace of events (`NewTcp`, `Close`,
`Conn`, `SetTimeout`, `Send`, `Listen`, `Sleep`). Evaluating the Lua file
is an input too (`LuaOutcome`): whether the file ran, and the string value
of each of the two globals, if it has one. Each Lua copy is modelled as
`strncpy` into a fixed buffer, a NUL put at the last index, and the buffer
read back as a C string. Every `char` of a string stands for one byte
of the C string: argv tokens and Lua values are given one byte per
`char`, so the caps of 255 and 5 count bytes. The host copy is modelled as written. The port
copy is modelled with strncpy length 6 instead of the 256 that is written
(see Findings).

Files:

- `cstrings.dfy`, module `CStrings`: `Truncate`; `CString`, which reads a
  buffer up to its first NUL; `Strncpy`; and the lemma that
  copy-then-terminate cuts a string to the buffer's capacity.
- `config.dfy`, module `ClientConfig`: the `Config` record, the Lua layer,
  the argument walk `Walk` and its specification `Resolve`, the loop
  method `GetConfig` proved equal to `Resolve`, and lemmas about
  precedence, `--help` and the walk.
- `emit.dfy`, module `Emitter`: the recursive specification of the trace
  (`AttemptsFrom`, `EmitTrace`), the number of attempts (`Tries`), the
  methods `TryOnce` (one attempt) and `Emit` (the `do … while` loop)
  proved against them, and lemmas about attempt counts, backoff and call
  order.

What `main.c` does, as modelled:

- The backoff sleeps last `try * 5` seconds. That is 10 s before attempt 2
  and 15 s before attempt 3, 25 s in all.
- One handle is created before the loop and reused by every attempt.
  Each attempt closes it and connects it again.
- `--help` is recognised only as `argv[1]`. Elsewhere it is skipped like
  any unrecognised token, or taken as a flag's value.
- Over-long Lua values are silently truncated, not rejected.
- `get_config` accepts an empty host or port. The value can be empty from
  a flag (`-h ""`), from a Lua empty string, or from a Lua string that
  starts with NUL. Only the defaults are guaranteed non-empty.

## Model

| member | source | states |
|---|---|---|
| `CStrings.Truncate` | main.c:164 | the result is a prefix of the input, at most `n` long, and equals the input when it already fits |
| `CStrings.CString` | main.c:165 | a buffer reads as its prefix before the first NUL: that prefix holds no NUL, and the character after it, if any, is NUL |
| `CStrings.Strncpy` | main.c:163 | strncpy writes exactly `n` bytes: the source's C string cut to `n`, then NUL padding |
| `CStrings.StrncpyReads` | main.c:163 | a buffer filled by strncpy reads back as the source's C string cut to `n` bytes |
| `CStrings.CopyThenTerminate` | main.c:163-165 | strncpy of `cap + 1` bytes, then a NUL at index `cap`, reads as the source cut to `cap` bytes |
| `ClientConfig.Set` | main.c:177-186 | assigning one field sets that field to the value and leaves every other field unchanged |
| `ClientConfig.FlagField` | main.c:177-185 | a token selects field `f` exactly when it is `f`'s long or short flag, so both spellings are equivalent |
| `ClientConfig.LuaCopy` | main.c:162-170 | a Lua string copied into its buffer reads as its C string cut to the buffer's capacity |
| `ClientConfig.PortWriteAsWritten` | main.c:168 | as written, the port copy writes 256 bytes and reads back as the string cut to 256 |
| `ClientConfig.PortCopyOverflows` | main.c:161-168 | as written, the port copy writes 250 bytes past its 6-byte buffer for every Lua port string, "9090" included |
| `ClientConfig.LuaCopiesFit` | main.c:160-170 | the host copy, and the corrected port copy of length 6, each write exactly their buffer, and they read as the value cut to 255 and 5 bytes |
| `ClientConfig.ApplyLua` | main.c:154-172 | host (or port) becomes the Lua value cut to 255 (or 5) bytes exactly when the file ran and the global is a string; otherwise it stays as before; command, route and payload are unchanged |
| `ClientConfig.GetConfig` | main.c:142-188 | the loop over `argv` yields exactly `Resolve`: help when the first argument is `--help`, otherwise the flag walk started from the defaults plus the Lua layer |
| `ClientConfig.WalkNeverHelps` | main.c:176-187 | the argument walk never requests help: `--help` after the first position is skipped or consumed as a value |
| `ClientConfig.HelpOnlyFirst` | main.c:143-145 | resolution is `Help` if and only if the first argument is `--help` |
| `ClientConfig.WalkAppend` | main.c:176-187 | the walk composes: after a prefix that resolves, the rest is walked from the prefix's configuration |
| `ClientConfig.WalkWithoutFlags` | main.c:176-187 | tokens that are not recognised flags leave the configuration unchanged |
| `ClientConfig.NoFlagsKeepsLuaLayer` | main.c:147-187 | with no recognised flag on the command line, the result is the defaults with only the Lua layer applied |
| `ClientConfig.LastOccurrenceWins` | main.c:176-187 | appending a flag and its value to a command line that resolves sets that field to the value, overriding the defaults, the Lua layer and earlier flags; the other fields keep their values |
| `ClientConfig.TrailingFlagFails` | main.c:176-186 | a recognised flag given as the last argument makes resolution fail with that flag named |
| `ClientConfig.FlagTakesNextToken` | main.c:177-186 | a flag always consumes the next token as its value, even a token that looks like a flag, and the walk resumes after that token |
| `ClientConfig.EmptyHostAndPortReachable` | main.c:162-187 | an empty host and port are reachable: `-h "" --port ""` resolves to the Lua layer with both fields empty, and a Lua empty host or a Lua port starting with NUL yields an empty value |
| `Emitter.Tries` | main.c:110-134 | the number of attempts is between 1 and 3: it is the first attempt whose listen state is below the threshold, or 3 when no attempt before the third finishes |
| `Emitter.TryOnce` | main.c:119-131 | one attempt makes the calls close, connect, timeout, send and listen up to the first nonzero state, and it ends the loop exactly when listen ran and returned below the threshold |
| `Emitter.Emit` | main.c:100-138 | the handle is the one created from the configured host and port; the attempt count is `Tries`; the calls made are exactly `EmitTrace` |
| `Emitter.AttemptOrder` | main.c:92-98 | an attempt's calls are a prefix of close → connect → timeout(60) → send → listen, and each later call happens if and only if every earlier step returned zero |
| `Emitter.ConnectsOncePerAttempt` | main.c:104-134 | the handle is created exactly once, as the first call; connect and close each happen once per attempt, between one and three times |
| `Emitter.BackoffSchedule` | main.c:111-117 | there is no sleep before attempt 1; there is one sleep per retry, and the sleep before attempt `k` lasts `k * 5` seconds (10, then 15) |
| `Emitter.EmitOrdered` | main.c:111-134 | the whole trace follows call order: creation first and only once; within an attempt each call follows the step before it; sleeps come only between attempts; the trace ends with listen exactly when the last attempt reached listen |
| `Emitter.FirstFinishStops` | main.c:128-137 | when attempt `k` is the first whose listen state is below the threshold, emit stops there: `k` attempts, `k` closes, and listen is the last call |
| `Emitter.AllFailuresExhaust` | main.c:110-137 | when no attempt finishes, emit makes exactly 3 attempts, connects 3 times and sleeps 10 then 15 seconds |

## Left out

- Signal handling is not modelled. This covers the `SIGTERM`/`SIGINT`
  `longjmp` to shutdown, the `SIGQUIT` switch to `daemon()`, and ignoring
  `SIGPIPE` (main.c:56-84, 224-226). All of it is asynchronous and
  non-local, not sequential logic.
- The failure of `ducq_new_tcp` is not modelled. That path jumps to
  shutdown with the handle uninitialised, which is undefined in C
  (main.c:105-108).
- Logging is not modelled: the `LOGx` macros, `log_error`, `default_log`
  and emit's progress messages. They are output only.
- `error_quit` and the usage text (main.c:32-52) are not modelled.
  Asking for help is the result `Help`. The exit status and the text are
  not modelled.
- Loading the Lua file is an input, not modelled code. This covers
  `luaL_newstate`, `getenv("HOME")`, building the path, `luaL_loadfile`,
  `lua_pcall` and `lua_close`. A NULL state from `luaL_newstate` is not
  modelled.
- The transport calls are not modelled (`ducq_conn`, `ducq_timeout`,
  `ducq_emit`, `ducq_listen`, `ducq_close`). Their states come from the
  `Attempt` inputs. Nor is the actual duration of `sleep`: a sleep is an
  event carrying its seconds.
- `initialize`, `finalize` and `main`'s teardown order (main.c:210-237)
  are not modelled. They call into client code that is not part of this
  model.
- `GetConfig` requires `argv` to hold at least the program name. With
  `argc == 0`, the C walk reads past the end of `argv`.
- A flag as the last argument is the defined result `MissingValue(flag)`.
  The C code assigns NULL and then reads past the end of `argv`, and that
  undefined behaviour is not reproduced.
- Only strings whose global has the Lua string type are taken from the
  Lua file. A numeric `port = 9090` is ignored, as in the code.
- `ClientConfig.ApplyLua` (and `LuaCopy`, `CStrings`): each `char` stands
  for one byte of the C string, so a caller must give argv tokens and Lua
  values one byte per `char`. Text as Unicode characters is not modelled,
  and a cut that splits a multi-byte UTF-8 character is not shown as such.
- The port copy is modelled with strncpy length 6, not the 256 that is
  written (see Findings). What the overflow does to nearby memory is not
  modelled.

## Findings

| source | as written | input that shows it | evidently intended | confidence | as-written member | corrected member |
|---|---|---|---|---|---|---|
| main.c:161-168 | the Lua port value is copied with strncpy length 256 into a 6-byte static buffer | any Lua `port` string, e.g. "9090": strncpy always writes all 256 bytes (it pads with NUL), so 250 land past the buffer | copy at most the buffer's 6 bytes, then terminate at index 5, leaving the port cut to 5 bytes | high, not executed | `ClientConfig.PortCopyOverflows` | `ClientConfig.LuaCopiesFit` |
