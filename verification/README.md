# rkt container runtime, modelled in Dafny

This project models the rkt runtime of convirt (`convirt/runtimes/rkt.py`),
which has three parts:

- **`_parse_keyval`** is the `key=value` parser applied to the output of `rkt status`.
- **`Rkt`** is the lifecycle of one container launched with `rkt run`:
  - `running` and `runtime_name()`;
  - `start(target)`, with its two readiness steps: reading the identifier file rkt writes (`_read_rkt_uuid`), then polling `rkt status` until the container is running (`_fetch_rkt_state`);
  - `stop()`.
- **`Network`** is the reconciler for one rkt network definition file under `/etc/rkt/net.d`. It covers:
  - construction, `filename` and `path`;
  - the scoped use through `__enter__`/`__exit__`;
  - `__eq__`, `update`, `load`, `save` and `clear`;
  - `get_conf`, `_make` and `_make_ipam`;
  - `Rkt.configure_runtime`, which combines them.

The modules are:

| module | file | contents |
|---|---|---|
| `Outcomes` | `outcomes.dfy` | `Option`, `Result` (for `:-`), `Outcome` |
| `Text` | `text.dfy` | the Python string built-ins the code relies on, over `seq<char>`: `strip`, `splitlines`, `split(sep)`, `split(sep, 1)`, `int(str)`, `str(int)`, `os.path.join` |
| `KeyVal` | `keyval.dfy` | `_parse_keyval` as a fold over lines, its specification, and the loop as written |
| `Polling` | `polling.dfy` | the bounded retry helper `start` uses, as a function of an attempt budget |
| `RktRuntime` | `rkt_runtime.dfy` | the `Rkt` state, its operations and their properties |
| `RktNetwork` | `rkt_network.dfy` | the `Network` reconciler over an abstract file store |

`Rkt` operations are pure functions from a state to a `Transition`. A
transition holds three things:

- the new state;
- the calls made to the outside world, in order, as `Event`s;
- whether the operation completed or raised.

A Python exception leaves behind the state reached so far, and the model
keeps that state too. The outside world is a `Host` record of oracles:

- whether the run command and the stop command succeed;
- what the k-th read of the identifier file returns;
- what the k-th `rkt status` call prints.

`Network` operations are pure functions over a `Network` value. The file
system is a map from paths to stored documents.

Behaviours of `rkt.py` worth knowing, which the model keeps:

- `_read_rkt_uuid` (`rkt.py:140-146`) accepts the identifier file as soon as `read_file` returns, even when it is empty or holds only whitespace. After such a read the instance counts as running with the identifier `""`.
- `save` does not clear the dirty flag. So within one scope, a second `update` with the same configuration leaves the network dirty if the first one made it dirty. A fresh scope on the same network after a completed configuration writes nothing (`RktNetwork.ConfigureIdempotent`).
- A `start` that read the identifier but never saw the container running raises not-ready. It still keeps the identifier, so the instance counts as running and a second `start` is refused (`RktRuntime.StartKeepsIdentifierWhenNeverRunning`).

## Model

| member | source | states |
|---|---|---|
| KeyVal.ParseLinesSound | convirt/runtimes/rkt.py:164-171 | The parse fails exactly when some line is non-empty without `=`, and then reports the first such line. Otherwise its keys are exactly the keys of the non-empty lines, and each key maps to the text after the first `=` of the last line carrying that key. |
| KeyVal.ParseKeyval | convirt/runtimes/rkt.py:164-171 | After the split into lines, no parsed key contains `=` or a line break, and no value contains a line break. |
| KeyVal.ParseKeyvalSpec | convirt/runtimes/rkt.py:164-171 | `_parse_keyval` fails exactly when a line of the output is non-empty without `=`, and then reports the first such line. Otherwise the keys of the map are exactly the keys of the non-empty lines, each holding the value of the last line with that key. |
| KeyVal.ParseStep | convirt/runtimes/rkt.py:166-170 | One turn of the loop: an earlier failure stands, an empty line changes nothing, a non-empty line without `=` raises with that line, and a line with `=` stores the text after the first `=` under the text before it. |
| KeyVal.CleanEntries | convirt/runtimes/rkt.py:166-170 | Lines without line breaks yield keys without `=` and without line breaks, and values without line breaks. |
| KeyVal.ParseKeyvalLoop | convirt/runtimes/rkt.py:164-171 | The imperative loop, returning early at the first malformed line, agrees with the fold-based definition on every input. |
| KeyVal.FailureStands | convirt/runtimes/rkt.py:169 | Once a line has raised, no later line changes the outcome. |
| KeyVal.MalformedPrefixDecides | convirt/runtimes/rkt.py:169 | A malformed line after a prefix that parses decides the whole parse: the result is the error for that line. |
| KeyVal.ParseLinesSkipsEmpty | convirt/runtimes/rkt.py:167-168 | Inserting an empty line anywhere leaves the result unchanged. |
| KeyVal.ParseLinesLastWins | convirt/runtimes/rkt.py:169-170 | A line `k=v` after well-formed lines stores exactly `v` under `k` and overwrites any earlier value. `v` may itself contain `=`. |
| KeyVal.ParseLinesRejectsMalformed | convirt/runtimes/rkt.py:169 | A non-empty line without `=` anywhere in the input makes the parse fail. |
| KeyVal.ParseLinesTwoEntries | convirt/runtimes/rkt.py:166-171 | Two well-formed lines give the map holding both pairs, with the second line written last. |
| KeyVal.ParseKeyvalOfJoinLines | convirt/runtimes/rkt.py:166 | Parsing text made of `\n`-terminated lines is parsing those lines. |
| KeyVal.ParseKeyvalTwoLines | convirt/runtimes/rkt.py:164-171 | Text of two `key=value` lines, each ending in `\n`, parses to both pairs. |
| KeyVal.StatusOutputExample | convirt/runtimes/rkt.py:164-171 | `"state=running\npid=1234\n"` parses to `{state: running, pid: 1234}`, with the values as text. |
| Text.Strip | convirt/runtimes/rkt.py:146 | The result is the infix of the input that starts after the leading whitespace. Everything outside it is whitespace, and it neither starts nor ends with whitespace. |
| Text.StripNoSpaces | convirt/runtimes/rkt.py:146 | Text with no whitespace at all is left unchanged. |
| Text.SplitLines | convirt/runtimes/rkt.py:166 | No line contains a line break, and there are no lines exactly when the text is empty. |
| Text.SplitLinesRebuilds | convirt/runtimes/rkt.py:166 | The lines interleaved with the terminators removed from them give back the text. Every terminator is `\r\n` or a single line-break character; only the last line may lack one, and then it is not empty. A lone `\r` terminator is never directly followed by a `\n` terminator, since `\r\n` is one terminator. |
| Text.SplitLinesTerminated | convirt/runtimes/rkt.py:166 | A line ended by `\n` is split off the front of the text unchanged. |
| Text.SplitLinesJoinLines | convirt/runtimes/rkt.py:166 | Splitting lines that were joined with `\n` terminators gives back exactly those lines. |
| Text.SplitFirst | convirt/runtimes/rkt.py:169 | Unpacking succeeds exactly when the separator occurs. The key is then free of it, and key, separator and value rebuild the line. |
| Text.Split | convirt/runtimes/rkt.py:233 | There is one more part than the number of separators, and no part contains the separator. |
| Text.SplitJoin | convirt/runtimes/rkt.py:233 | Joining the parts with the separator gives back the text. |
| Text.SplitAroundSeparator | convirt/runtimes/rkt.py:233 | Text with exactly one separator splits into the parts before and after it. |
| Text.ParseIntOfIntToString | convirt/runtimes/rkt.py:238 | `int` reads back every integer that `%s` formats (line 253): the two are inverse on all integers, negative ones included. |
| Text.IntToString | convirt/runtimes/rkt.py:253 | `%s` of an integer is non-empty, starts with `-` exactly when the integer is negative, and every other character is a digit. There are no leading zeros: the text starts with `0` only for zero, and then it is exactly `0`; a negative integer never formats as `-0…`. |
| Text.NatToString | convirt/runtimes/rkt.py:253 | The decimal text of a natural number is a non-empty run of digits, and it starts with `0` only when the number is zero and the text is that single digit. |
| Text.IntToStringHasNoChar | convirt/runtimes/rkt.py:253 | A formatted integer contains no character other than `-` and the digits. |
| Text.PathJoin | convirt/runtimes/rkt.py:203-205 | An absolute second component replaces the first. Otherwise the result starts with the directory and ends with the file name, with at most one extra character between them. That character is a `/`, and it is added exactly when the directory is non-empty and does not already end in `/`. |
| Polling.RetryFrom | convirt/runtimes/rkt.py:117-122 | Complete characterisation of the retry loop from a given attempt. It is exhausted exactly when every remaining attempt reports not-ready, and then it made every attempt. Otherwise the last attempt made was the first one that did not report not-ready, and its value or error is the result. |
| Polling.Retry | convirt/runtimes/rkt.py:117-122 | The same characterisation for a full budget of attempts. |
| Polling.RetryStopsAt | convirt/runtimes/rkt.py:117-122 | When attempt `k` is within the budget, does not report not-ready, and every earlier attempt did, the loop ends at `k` after exactly `k + 1` attempts, with that attempt's value or error. |
| RktRuntime.NewRkt | convirt/runtimes/rkt.py:76-88 | A new instance is not running and has no pid. Its identifier file path is the run directory, at most one `/`, then `<uuid>.rkt`. |
| RktRuntime.RuntimeName | convirt/runtimes/rkt.py:135-138 | The name is absent exactly when the instance is not running. Otherwise it is `rkt-` followed by exactly the identifier. |
| RktRuntime.RuntimeNameIdentifies | convirt/runtimes/rkt.py:135-138 | Equal runtime names mean equal identifiers. |
| RktRuntime.ReadRktUuid | convirt/runtimes/rkt.py:140-148 | A failed read signals not-ready and changes nothing. A successful read stores the stripped contents, changes nothing else and makes the instance running. |
| RktRuntime.FetchRktState | convirt/runtimes/rkt.py:150-161 | A completed step records a pid and changes nothing else in the instance. |
| RktRuntime.FetchRktStateSpec | convirt/runtimes/rkt.py:150-161 | The step signals not-ready exactly when the status parses and reports a state other than `running`. It completes exactly when the status reports `running` with an integer pid, and then it stores exactly that pid. Every other reply is fatal. A failed status command raises with the runner's message, and output that does not parse raises the malformed-line error for the line `_parse_keyval` rejects. |
| RktRuntime.FetchRejectsMalformedStatus | convirt/runtimes/rkt.py:150-154 | Status output containing a non-empty line without `=` raises the malformed-line error for the first such line. |
| RktRuntime.FetchRecordsReportedPid | convirt/runtimes/rkt.py:155-159 | A status reporting `running` with pid `p` records exactly `p`. |
| RktRuntime.AwaitRunning | convirt/runtimes/rkt.py:120-122 | The status polling keeps the identifier, and every call it makes is a status query for that identifier. If it completes, a pid is recorded. If it fails, the state is unchanged. |
| RktRuntime.AwaitRunningCompletes | convirt/runtimes/rkt.py:120-122 | When reply `k` is the first within the budget to report `running`, the polling completes after exactly `k + 1` queries for the identifier and records that reply's pid. Nothing else changes. |
| RktRuntime.AwaitRunningGivesUp | convirt/runtimes/rkt.py:120-122 | When every reply within the budget reports another state, the polling raises not-ready for `fetch rkt state` after exactly `attempts` queries and leaves the instance unchanged. |
| RktRuntime.AwaitRunningAborts | convirt/runtimes/rkt.py:120-122 | When reply `k` is the first that is neither another state nor `running` with a pid, the polling raises that reply's error after exactly `k + 1` queries and leaves the instance unchanged. |
| RktRuntime.AwaitRunningFails | convirt/runtimes/rkt.py:120-122 | A failed polling is one of two cases, each with its exact result: every reply reported another state and it gave up after `attempts` queries, or it stopped at the first fatal reply `k` with that reply's error after `k + 1` queries. |
| RktRuntime.AwaitIdentifier | convirt/runtimes/rkt.py:117-122 | The readiness steps make only identifier-file reads and status queries. A completed `start` ends running with a pid. An instance still not running afterwards is exactly as before. |
| RktRuntime.AwaitRunningAtOnce | convirt/runtimes/rkt.py:120-122 | A status that is ready at the first query completes the polling after exactly one query. |
| RktRuntime.AwaitIdentifierAtOnce | convirt/runtimes/rkt.py:117-119 | An identifier file readable at the first attempt costs exactly one read before status polling begins. |
| RktRuntime.AwaitRunningReports | convirt/runtimes/rkt.py:150-159 | A completed status polling stopped at the first reply reporting `running`, after replies that all reported another state. It recorded that reply's pid and made exactly one query per reply up to it. |
| RktRuntime.AwaitIdentifierAfterReads | convirt/runtimes/rkt.py:117-122 | When read `j` is the first successful read, the first readiness step makes `j + 1` reads and continues with the status polling for the stripped contents of read `j`. |
| RktRuntime.AwaitIdentifierReads | convirt/runtimes/rkt.py:117-122 | The instance ends up running exactly when one of the reads succeeds; otherwise it made exactly `attempts` reads. When running, its identifier is the stripped contents of the first successful read, the reads up to it come first, and every later call is a status query for that identifier. A completed wait also stopped at the first reply reporting `running` and holds its pid. |
| RktRuntime.Start | convirt/runtimes/rkt.py:107-122 | On a running instance, `start` raises "already running" and calls nothing. Otherwise it first removes the identifier file, then launches `rkt run` with the target or configured image, then only polls. A failed launch raises with the runner's error right after those two calls. A completed start ends running with a pid. A start that does not end running leaves the instance as it found it. Nothing but the identifier and the pid ever changes. |
| RktRuntime.StartDiscovers | convirt/runtimes/rkt.py:107-122 | After a successful launch, `start` ends running exactly when a read of the identifier file succeeds. The identifier is then that of the first successful read, and after the two launch calls come reads up to it, then only status queries for it. A completed start made exactly those reads and queries, up to the first reply reporting `running`, and holds that reply's pid. A failed start that kept an identifier either saw only replies reporting another state, or stopped at the first fatal reply. |
| RktRuntime.StartCompletes | convirt/runtimes/rkt.py:107-122 | After a successful launch, with read `j` the first successful one and reply `k` the first reporting `running`: `start` completes with exactly the two launch calls, `j + 1` reads and `k + 1` queries, holding that identifier and pid. |
| RktRuntime.StartGivesUpWaiting | convirt/runtimes/rkt.py:107-122 | After a successful launch and a first successful read `j`, when no reply within the budget reports `running`, `start` raises not-ready after the launch calls, `j + 1` reads and `attempts` queries. The instance keeps that identifier and its old pid. |
| RktRuntime.StartStopsAtFatalReply | convirt/runtimes/rkt.py:107-122 | After a successful launch and a first successful read `j`, when reply `k` is the first fatal one, `start` raises that reply's error after the launch calls, `j + 1` reads and `k + 1` queries. The instance keeps that identifier and its old pid. |
| RktRuntime.Stop | convirt/runtimes/rkt.py:124-133 | On a stopped instance, `stop` raises "not running" and calls nothing. Otherwise its first call stops the container by the runtime name it has before clearing. It completes exactly when that call succeeds, and then makes exactly two calls and forgets only the identifier. A failed stop command raises with the runner's error after exactly that one call and changes nothing. |
| RktRuntime.StartGivesUpWithoutIdentifier | convirt/runtimes/rkt.py:117-119 | When the identifier file is never readable, `start` raises not-ready after exactly `attempts` reads and leaves the instance as it was. |
| RktRuntime.StartKeepsIdentifierWhenNeverRunning | convirt/runtimes/rkt.py:117-122 | When the identifier is read but the container never reports running, `start` raises not-ready yet keeps the identifier and the old pid. |
| RktRuntime.StartFirstTime | convirt/runtimes/rkt.py:107-122 | When the file and the status are ready at once, `start` makes exactly four calls, in order, and ends with that identifier and pid. |
| RktRuntime.StartThenStop | convirt/runtimes/rkt.py:107-133 | A completed `stop` after a completed `start` addresses the identifier `start` discovered. Afterwards the instance is stopped, so the next `start` passes its guard and launches again. |
| RktNetwork.NewNetwork | convirt/runtimes/rkt.py:182-190 | A new network has an empty definition and is not dirty. Its file name is `50-`, then the network name, then `.conf`. |
| RktNetwork.Path | convirt/runtimes/rkt.py:203-205 | The path is `/etc/rkt/net.d/` followed by the file name, unless the file name is absolute, in which case it is the file name. |
| RktNetwork.PathOfNetwork | convirt/runtimes/rkt.py:203-205 | The path is `/etc/rkt/net.d/50-<name>.conf`, and different names give different paths. |
| RktNetwork.MakeIpam | convirt/runtimes/rkt.py:252-258 | The allocator has exactly the members `type` and `subnet`. Its type is `host-local`, and its subnet is the configured subnet, a `/`, and the mask as `%s` formats it. |
| RktNetwork.MakeIpamMask | convirt/runtimes/rkt.py:253 | The text after the configured subnet and its `/` contains no `/` and reads back under `int` as the configured mask. |
| RktNetwork.Make | convirt/runtimes/rkt.py:241-250 | The definition holds `name` (the network's own name), `type` `bridge`, the configured `bridge`, and the allocator `_make_ipam` builds. |
| RktNetwork.MakeDetermines | convirt/runtimes/rkt.py:241-258 | Two configurations give the same definition exactly when they agree on bridge, subnet and mask. |
| RktNetwork.Update | convirt/runtimes/rkt.py:207-211 | Afterwards the definition is the one `_make` builds from the configuration. The network is dirty exactly when it already was or the definition changed. Name and file name stay. |
| RktNetwork.UpdateIdempotent | convirt/runtimes/rkt.py:207-211 | A second update with the same configuration changes neither the definition nor the dirty flag. |
| RktNetwork.UpdateNoChange | convirt/runtimes/rkt.py:207-211 | A network whose definition is already the one `_make` builds stays exactly as it is, dirty flag included. |
| RktNetwork.UpdateDirtiesOnChange | convirt/runtimes/rkt.py:207-211 | On a network holding the definition built from an earlier configuration, an update marks it dirty exactly when it already was or the new configuration differs in bridge, subnet or mask. |
| RktNetwork.Load | convirt/runtimes/rkt.py:213-219 | A missing file keeps the current definition. A file that is not JSON raises. Otherwise the file's document becomes the definition. The dirty flag is never touched. |
| RktNetwork.Save | convirt/runtimes/rkt.py:221-226 | The network's file is written with the definition exactly when the network is dirty or the save is forced. Every other file stays, and without a write the store is unchanged. |
| RktNetwork.SaveThenLoad | convirt/runtimes/rkt.py:213-226 | What a dirty network saves is what a later load of a network with the same file name reads. |
| RktNetwork.Clear | convirt/runtimes/rkt.py:228-229 | The network's file is gone and every other file stays. |
| RktNetwork.ClearThenLoad | convirt/runtimes/rkt.py:228-229 | After `clear()`, loading a network with the same file keeps its in-memory definition. |
| RktNetwork.Enter | convirt/runtimes/rkt.py:192-194 | Entering the scope raises exactly when the file exists but is not JSON. Otherwise the definition is the file's document when there is one, the in-memory one when there is not, and name, file name and dirty flag stay. |
| RktNetwork.Exit | convirt/runtimes/rkt.py:196-198 | Leaving the scope with an exception in flight writes nothing. A clean exit saves, unforced: a dirty network's file then holds its definition, a clean one writes nothing. No other file changes either way. |
| RktNetwork.Field | convirt/runtimes/rkt.py:233-237 | Indexing succeeds exactly on an object holding the key, and yields that member. |
| RktNetwork.GetConf | convirt/runtimes/rkt.py:232-239 | A definition that is not an object raises `TypeError`, and one without `ipam` raises `KeyError` for it. A successful read reports the `name` and `bridge` members and the `ipam.subnet` string split at `/` into exactly the subnet and an integer mask. |
| RktNetwork.GetConfOfSubnet | convirt/runtimes/rkt.py:232-239 | On a definition with `ipam`, `name` and `bridge` members and a string subnet, `get_conf()` succeeds exactly when the subnet splits at `/` into two parts, the second an integer. It then reports the name, the bridge, the first part and the integer. |
| RktNetwork.UpdateThenGetConf | convirt/runtimes/rkt.py:232-258 | After `update(conf)`, `get_conf()` succeeds exactly when the subnet contains no `/`. It then returns the network's name and the configuration's bridge, subnet and mask, for every integer mask. |
| RktNetwork.SubnetSplit | convirt/runtimes/rkt.py:253 | The subnet string `_make_ipam` builds splits at `/` into subnet and mask exactly when the subnet has no `/` of its own. The mask text reads back as the mask. |
| RktNetwork.GetConfReadsOnlyData | convirt/runtimes/rkt.py:200-201 | Networks that compare equal under `__eq__` give the same `get_conf()`. |
| RktNetwork.ConfigureRuntime | convirt/runtimes/rkt.py:97-101 | Configuring fails exactly when the network's file exists but is not JSON. Otherwise the file afterwards holds the definition built from the configuration, and every other file is untouched. |
| RktNetwork.ConfigureIdempotent | convirt/runtimes/rkt.py:97-101 | Configuring again with the same configuration leaves the store exactly as the first run left it. |
| RktNetwork.ConfigureThenReadBack | convirt/runtimes/rkt.py:97-101 | After configuring, a fresh scope on the same network loads a definition whose `get_conf()` gives back the configured name, bridge, subnet and mask. |
| RktNetwork.ReadBackExample | convirt/runtimes/rkt.py:97-101 | Bridge `br0` on subnet `10.0.0.0` with mask 24 is read back field by field after configuring. |

## Left out

- External commands and templates (`_TEMPLATES`, the runner, `rkt run`, `rkt status`, `rkt stop`) are outcome oracles in `Host`. Their command lines are not modelled.
- The bytes of the status output and their UTF-8 decoding are not modelled. The model starts from the decoded text.
- Logging is left out, because it has no observable effect.
- The retry helper and `NotYetReady` are defined outside `rkt.py`. `Polling.Retry` is an assumed bounded loop: it retries only on not-ready, propagates any other error at once, and ends exhausted with a not-ready error. It has no delay, and the exact exception it raises on exhaustion is not modelled.
- `fs.rm_file` is not part of this model. Before `rkt run`, the removal of the identifier file is a `RemoveFile` event, and its failure modes are not modelled.
- In `stop`, `os.remove` of the identifier file is a `RemoveFile` event. Its `OSError` is swallowed, so whether it fails does not appear in the model.
- `register`, `available` and executable probing are not modelled. They only look up the executable.
- The `ContainerRuntime` base class is not part of this model. The run configuration, the run directory and the instance id are parameters, and the pid starts absent.
- `Rkt.configure_runtime` reads the current network configuration from a module that is not part of this model. `RktNetwork.ConfigureRuntime` takes that configuration as a parameter.
- JSON on disk is modelled as the stored document itself. `json.dump` followed by `json.load` is taken to be the identity on the documents written here. Indentation, key order and write failures are left out.
- Floating-point JSON numbers are left out. So is Python's `True == 1` in the definition comparison: JSON booleans and numbers never compare equal here.
- `Text.ParseInt`: `int()` accepts ASCII digits with an optional sign and surrounding whitespace. Underscores between digits and non-ASCII digits are not modelled.
- `RktNetwork.Load`: of the read failures, only a missing file is modelled, and only as the `IOError` that `load` ignores. A file that is not valid JSON raises.
- `RktNetwork.Make`: `_make` and `_make_ipam` read the configuration with dictionary access. The model takes a typed configuration with an integer mask, so a missing configuration key is not modelled.
- `RktNetwork.Make`: the contract lists the four members and their values, but does not state that the definition has no other member. That part is left to the body.
