# A verified model of the go-load-balancer engine

This project models the engine of a small HTTP load balancer written in Go, and proves properties of the model. The engine has four parts:

- **Backend record** (`Backends`, backend.dfy). A backend has an address, an `alive` flag that starts true, and a connection counter. Decrementing the counter clamps it at zero. A probe outcome is classified as healthy when no transport error occurred and the status is in [200, 500).
- **Load balancer** (`Balancer`, balancer.dfy). It owns a fixed pool of backends, a persistent rotation cursor and an algorithm tag. It provides:
  - `RoundRobin`, which advances the cursor before each probe and uses the post-increment value modulo N;
  - `LeastConnections`, where a strict `<` makes the lowest index win ties;
  - `NextBackend`, which dispatches on the tag: `"least-conn"`, or round-robin for any other tag;
  - `ServeHTTP`: select, take a connection, record the request, forward, release the connection;
  - one tick of the health checker.

  The pure specifications of the two algorithms live in `Selection` (selection.dfy): what one round-robin call yields, what consecutive calls yield, and what least-connections chooses. The class methods are proved against them.
- **Stats aggregator** (`Dashboard`, dashboard.dfy). It keeps a total request counter, per-address request counters and per-address liveness. `GetStats` copies the maps entry by entry. The process-wide `stats` variable of the source is an explicit `Stats` object here, passed to `ServeHTTP` and to the health tick. Its invariant is that the total equals the sum of the per-address counters.
- **Configuration** (`Config`, config.dfy). The backend setting is split on commas, each piece is trimmed of white space, and empty pieces are dropped. Each scalar setting takes, in order:
  - an explicit flag;
  - else a non-empty environment variable (parsed as a decimal 64-bit integer for the numeric ones);
  - else a default (port 8080, `round-robin`, 30 seconds).

  The environment is a `map<string, string>`. The command-line flags are passed in already parsed, as optional values.

`Wrappers` (wrappers.dfy) holds the `Option` type.

`IsHealthy` (internal/backend/backend.go:89) accepts only statuses 200–499, so a 1xx answer marks a backend dead, as a 5xx answer or a transport error does; `Backends.IsHealthy` and `Backends.HealthyIffClass` state this band.

Modelling choices:

- Every method is one atomic step. The mutexes and atomics of the source exist to make that true.
- The result of `url.Parse` is a parameter `parses`, and `URL.String()` is taken to be the address string the backend was created from.
- A health probe is a `Probe` value: a transport error, or a response with a status code.
- When the same `Backend` object appears twice in the pool, the health tick sets its liveness twice, and the later entry's verdict is the one that remains.
- When two backends share an address, the later status update for that address wins in the stats.

## Model

| member | source | states |
|---|---|---|
| Backends.Backend.constructor | internal/backend/backend.go:29-34 | a new backend has the given address, is alive and has 0 connections |
| Backends.NewBackend | internal/backend/backend.go:22-35 | returns no backend iff the address does not parse; otherwise a fresh backend, alive, with 0 connections |
| Backends.Backend.SetAlive | internal/backend/backend.go:38-42 | liveness becomes the argument; the connection count is unchanged |
| Backends.Backend.IsAlive | internal/backend/backend.go:45-50 | returns the liveness flag and changes nothing |
| Backends.Backend.IncrementConnections | internal/backend/backend.go:53-57 | the count rises by exactly one, liveness is unchanged, and a non-negative count stays non-negative |
| Backends.Backend.DecrementConnections | internal/backend/backend.go:60-67 | the count becomes max(c-1, 0) (`Released`), liveness is unchanged, and the count is never negative afterwards |
| Backends.Released | internal/backend/backend.go:62-65 | the clamped decrement: c-1 for c ≥ 1, 0 otherwise, never negative |
| Backends.Backend.GetConnections | internal/backend/backend.go:70-75 | returns the count and changes nothing |
| Backends.IsHealthy | internal/backend/backend.go:82-94 | a transport error is unhealthy; a response is healthy iff its status class (status / 100) is 2, 3 or 4, so 1xx and 5xx answers are unhealthy |
| Backends.HealthyIffClass | internal/backend/backend.go:89-91 | a status is healthy iff its class (status / 100) is 2, 3 or 4, so 1xx and 5xx are not |
| Backends.RunCountsUnmatched | internal/backend/backend.go:53-67 | for any sequence of increments and decrements in which no decrement meets a zero count, the count is the start plus increments minus decrements |
| Backends.RunNonNegative | internal/backend/backend.go:60-67 | from a non-negative count, no sequence of increments and decrements makes it negative |
| Backends.RunConcat | internal/backend/backend.go:53-67 | running two step sequences one after the other is running their concatenation |
| Backends.RunAcquires | internal/backend/backend.go:53-57 | k increments add exactly k |
| Backends.RunReleases | internal/backend/backend.go:60-67 | k decrements from a count of at least k subtract exactly k |
| Backends.PairedStepsRestore | internal/backend/backend.go:53-67 | k increments followed by k decrements restore any non-negative count; from 0, k increments followed by k + e decrements end at 0, the surplus decrements being absorbed by the clamp |
| Backends.ReleasesAtZero | internal/backend/backend.go:60-67 | any number of decrements at a zero count leaves it at zero |
| Balancer.LoadBalancer.constructor | internal/balancer/balancer.go:21-27 | the balancer holds the given pool and algorithm, the cursor starts at 0, and a pool of valid backends gives a valid balancer |
| Balancer.LoadBalancer.RoundRobin | internal/balancer/balancer.go:40-53 | the loop's result and final cursor are exactly those of the specification `Selection.RoundRobin` on the pool's liveness flags |
| Balancer.LoadBalancer.LeastConnections | internal/balancer/balancer.go:56-70 | the result satisfies `Selection.LeastLoaded`: none iff no backend is alive; otherwise an alive backend with the smallest count, the lowest index among equals |
| Balancer.LoadBalancer.NextBackend | internal/balancer/balancer.go:30-37 | the tag `"least-conn"` selects by least connections and leaves the cursor alone; every other tag selects exactly as round-robin does; the backend returned is the pool entry at the chosen index |
| Balancer.LoadBalancer.ServeHTTP | internal/balancer/balancer.go:73-86 | with no backend selected: a 503 response, and neither connection counts nor stats change. Otherwise: the response comes from the chosen backend, the pool's liveness and counts end as they started, the total and that address's counter rise by one, statuses are unchanged, and the stats invariant is kept |
| Balancer.Forward | internal/balancer/balancer.go:80-85 | holding a connection around the recorded and forwarded request leaves the backend's count and liveness as they were and records exactly one request for its address |
| Balancer.LoadBalancer.HealthCheckTick | internal/balancer/balancer.go:94-99 | after one tick every backend's liveness is its probe's verdict (for an object listed twice, the later entry's); counts are unchanged; the status map is the in-order batch of updates, so every address holds its last verdict; request counters are unchanged |
| Balancer.Verdicts | internal/balancer/balancer.go:95 | one verdict per probe, in pool order, each equal to the probe's health |
| Selection.RoundRobin | internal/balancer/balancer.go:40-53 | the cursor moves by at most N; a none result moves it by exactly N; a picked index is in range and alive |
| Selection.Scan | internal/balancer/balancer.go:45-51 | continued from probe `probes`, the cursor moves by at most the remaining probes, by all of them on a none result; a picked index is the new cursor mod N and is alive |
| Selection.RoundRobinSpec | internal/balancer/balancer.go:41-52 | a call returns none iff no backend is alive, and then the cursor has moved by N (by 0 for an empty pool). Otherwise it returns the first alive index at offsets 1, 2, … from the old cursor and moves the cursor by that offset |
| Selection.ScanSpec | internal/balancer/balancer.go:45-51 | the probe loop continued from probe `probes` either stops at the first alive offset beyond it or ends after N probes with every offset dead |
| Selection.RoundRobinNeverDead | internal/balancer/balancer.go:47-50 | round-robin never returns a dead backend |
| Selection.RoundRobinAllAlive | internal/balancer/balancer.go:46 | on an all-alive pool a call picks (cursor + 1) mod N and moves the cursor by exactly one, so for N ≥ 2 a fresh balancer picks index 1 first (index 0 when N = 1) |
| Selection.RoundsAllAlive | internal/balancer/balancer.go:45-49 | on an all-alive pool, call m of a series yields (cursor + m + 1) mod N |
| Selection.RoundRobinFair | internal/balancer/balancer.go:45-49 | on an all-alive pool of size N, N consecutive calls return every backend exactly once, and call N+1 repeats the first |
| Selection.TwoBackendsAlternate | internal/balancer/balancer.go:46 | on two alive backends a fresh balancer serves the second, the first, the second, the first |
| Selection.ThreeBackendsRotate | internal/balancer/balancer_test.go:29-51 | on three alive backends a fresh balancer serves the second, the third, the first and the second again, so the first two picks differ |
| Selection.RoundsAllDead | internal/balancer/balancer.go:52 | over a pool with no alive backend every call of a series returns none |
| Selection.LeastLoadedUnique | internal/balancer/balancer.go:64 | the strict comparison makes the least-connections choice unique |
| Selection.LeastLoadedPicksIdle | internal/balancer/balancer_test.go:54-71 | with two alive backends holding 2 and 0 connections, the choice is the second |
| Selection.SelectsAlive | internal/balancer/balancer.go:30-37 | whatever the tag, the selection is none iff no backend is alive, and otherwise an alive backend of the pool |
| Selection.Probed | internal/balancer/balancer.go:46 | the slot probed at offset k from the cursor is in range |
| Selection.OffsetsDistinct | internal/balancer/balancer.go:46 | N consecutive offsets from one cursor probe N different slots |
| Selection.OffsetReaches | internal/balancer/balancer.go:46 | every slot is probed at some offset between 1 and N |
| Selection.OffsetFullTurn | internal/balancer/balancer.go:46 | offset j + N probes the same slot as offset j |
| Dashboard.Stats.constructor | internal/dashboard/dashboard.go:27-31 | the initial value has total 0 and empty maps, and satisfies the sum invariant |
| Dashboard.Stats.RecordRequest | internal/dashboard/dashboard.go:34-39 | the total rises by one; the address's counter rises by one (absent reads as 0) and no other counter changes; statuses are unchanged; the sum invariant is kept |
| Dashboard.Bump | internal/dashboard/dashboard.go:38 | adds the address to the keys, raises its counter by one from its old value (0 when absent), and leaves every other key unchanged |
| Dashboard.BumpAddsOne | internal/dashboard/dashboard.go:37-38 | one more request to any address adds exactly one to the sum of the counters, which is why the total stays equal to that sum |
| Dashboard.SumRemove | internal/dashboard/dashboard.go:21 | the sum of the counters can be taken with any key first |
| Dashboard.Stats.UpdateBackendStatus | internal/dashboard/dashboard.go:42-46 | the address's status becomes the argument; other statuses and all request counters are unchanged |
| Dashboard.StatusUpdateIdempotent | internal/dashboard/dashboard.go:45 | applying the same status update twice is the same as applying it once |
| Dashboard.ApplyStatusesSpec | internal/dashboard/dashboard.go:42-46 | after a batch of status updates the keys are the old keys plus the updated addresses; each updated address holds its last update's value; every other key is unchanged |
| Dashboard.LastUpdateWins | internal/dashboard/dashboard.go:45 | every address of a batch is present and holds the verdict of its last update |
| Dashboard.ApplyStatusesStep | internal/dashboard/dashboard.go:45 | one more update of a batch is one more map assignment |
| Dashboard.Stats.GetStats | internal/dashboard/dashboard.go:49-69 | changes nothing; the snapshot's total and both maps, copied key by key, equal the internal ones |
| Dashboard.SnapshotIsolated | internal/dashboard/dashboard.go:53-62 | a snapshot taken before a request and a status update keeps the values it was taken with |
| Dashboard.TwoAndOne | internal/dashboard/dashboard_test.go:10-28 | two requests to one address and one to another give counters {2, 1} and a total of 3 |
| Config.TrimLeftSpec | internal/config/config.go:48 | the left trim removes a prefix of white space and stops at the first other character |
| Config.TrimRightSpec | internal/config/config.go:48 | the right trim removes a suffix of white space and stops at the last other character |
| Config.TrimSpace | internal/config/config.go:48 | the trimmed string is no longer than the input and neither starts nor ends with white space |
| Config.TrimSpaceSpec | internal/config/config.go:48 | `strings.TrimSpace` returns the part between a leading and a trailing run of white space; it neither starts nor ends with white space, and is empty iff the input is all white space |
| Config.TrimSpaceIdempotent | internal/config/config.go:48 | trimming twice is trimming once |
| Config.Split | internal/config/config.go:47 | one more piece than commas; no piece contains the separator; every character of a piece comes from the input |
| Config.JoinSplit | internal/config/config.go:47 | joining the pieces back with the separator gives the input, so nothing is lost or reordered |
| Config.Clean | internal/config/config.go:47-52 | never more elements than pieces |
| Config.CleanKeepsOrder | internal/config/config.go:47-52 | element k is the trimmed piece at a strictly increasing origin index, and every piece not used trims to the empty string |
| Config.OriginsShape | internal/config/config.go:47-52 | the origins of the kept elements are in range and strictly increasing, one per element |
| Config.CleanAtOrigins | internal/config/config.go:48-50 | each kept element is the trimmed piece it comes from |
| Config.UnusedBlank | internal/config/config.go:49 | every piece that is not kept trims to the empty string |
| Config.CleanTrimmed | internal/config/config.go:48-50 | no kept element is empty or starts or ends with white space |
| Config.CleanElements | internal/config/config.go:48-50 | every kept element is non-empty, trimmed, and the trim of some piece |
| Config.CleanBlank | internal/config/config.go:49 | if every piece is white space, nothing is kept |
| Config.CleanAppend | internal/config/config.go:47-52 | cleaning a concatenation of piece lists concatenates the results |
| Config.TrimSpaceWithin | internal/config/config.go:48 | a trimmed string holds only characters of the string it was trimmed from |
| Config.BackendList | internal/config/config.go:46-52 | at most (commas + 1) backends; an empty setting gives none |
| Config.BackendListNoComma | internal/config/config.go:46-52 | no backend in the list contains a comma |
| Config.BackendListBlank | internal/config/config.go:46-52 | an empty or all-white-space setting gives no backends |
| Config.BackendListSpec | internal/config/config.go:46-52 | no element is empty, starts or ends with white space, or contains a comma; there are at most (commas + 1) elements; an all-white-space input gives none |
| Config.ParseBackends | internal/config/config.go:46-52 | the loop's list is the comma pieces, trimmed, with empty ones dropped, in order (`BackendList`) |
| Config.SplitNoSeparator | internal/config/config.go:47 | a string without a comma is one piece |
| Config.SplitAtFirst | internal/config/config.go:47 | the text before the first comma is the first piece and the rest is split on |
| Config.TrimPadded | internal/config/config.go:48 | trimming removes exactly the white space around a trimmed core |
| Config.TrimLeftPadded | internal/config/config.go:48 | leading white space before a non-space character is removed exactly |
| Config.TrimRightPadded | internal/config/config.go:48 | trailing white space after a non-space character is removed exactly |
| Config.CleanPadded | internal/config/config.go:48-50 | a non-empty address padded with white space is kept as the address |
| Config.CleanSingle | internal/config/config.go:48-50 | a single piece is kept, trimmed, iff it does not trim to empty |
| Config.CleanThree | internal/config/config.go:47-52 | three pieces that each clean to one address give those three addresses, in order |
| Config.ThreePieces | internal/config/config.go:47 | three comma-free parts joined by commas split back into those parts |
| Config.SpacedPieces | internal/config/config_test.go:79 | "a, b , c" splits into "a", " b " and " c" |
| Config.SpacedPiecesKept | internal/config/config_test.go:79-92 | each of those three pieces cleans to its address |
| Config.CleanSpacedPieces | internal/config/config_test.go:79-92 | those three pieces clean to [a, b, c] |
| Config.ThreeBackendsTrimmed | internal/config/config_test.go:72-93 | three addresses written "a, b , c" give exactly [a, b, c] |
| Config.OneBackend | internal/config/config_test.go:46-56 | a single comma-free address is a one-element list |
| Config.GetEnv | internal/config/config.go:73-78 | the variable's value when it is set and non-empty, the default otherwise |
| Config.GetEnvInt | internal/config/config.go:80-86 | the default when the variable is empty or unset or does not parse; the parsed value otherwise |
| Config.Atoi | internal/config/config.go:82 | a parsed value lies in the 64-bit range; the empty string and a lone sign do not parse; a negative value needs a leading minus |
| Config.AtoiShow | internal/config/config.go:82 | every 64-bit integer written in decimal parses back to itself |
| Config.AtoiDigits | internal/config/config.go:82 | unsigned digits within range parse to their value |
| Config.AtoiNegated | internal/config/config.go:82 | a minus sign followed by digits within range parses to the negated value |
| Config.DigitsOfShowNat | internal/config/config.go:82 | the digits of a natural number evaluate back to the number |
| Config.ShowNat | internal/config/config.go:82 | the decimal form of a natural number is a non-empty string of digits |
| Config.NonNumericRejected | internal/config/config.go:82 | a value with a non-digit beyond an optional leading sign does not parse |
| Config.NonNumericFallsBack | internal/config/config.go:80-86 | a non-numeric variable falls back to the default |
| Config.DecimalEnvWins | internal/config/config.go:80-86 | a variable holding the decimal form of a 64-bit integer yields that integer |
| Config.Parse | internal/config/config.go:26-60 | the configuration is the flag-else-environment-else-default scalar settings plus the backend list of the backend setting |
| Config.BackendsSetting | internal/config/config.go:35-40 | an explicit flag wins; otherwise the variable's value if it is set, else the empty string |
| Config.Settings | internal/config/config.go:36-44 | per field, an explicit flag wins; otherwise a set, non-empty algorithm variable or a parsing port/interval variable; otherwise the default 8080, `round-robin`, 30 |
| Config.DefaultsWhenUnset | internal/config/config.go:35-38 | with nothing set: port 8080, `round-robin`, 30 seconds and no backends |
| Config.FlagsWin | internal/config/config.go:40-44 | explicit flags win over every environment variable |
| Config.EnvironmentWins | internal/config/config_test.go:40-70 | with no flags, non-empty decimal variables and a non-empty algorithm win over the defaults |

## Left out

- Network I/O is not modelled. The probe's `http.Client.Get` with its 5-second timeout becomes a `Probe` parameter. `ReverseProxy.ServeHTTP` becomes an empty step in `Forward`, and the request and response writers are not modelled.
- `url.Parse` and `httputil.NewSingleHostReverseProxy` are library calls. Whether the address parses is a parameter of `NewBackend`, and a backend has no proxy field.
- Mutexes, `atomic.AddUint64` and goroutines are not modelled: every method is one atomic step, and interleavings are out of scope.
- Dashboard.SnapshotIsolated: Dafny maps are values, so a snapshot cannot alias the live maps; the aliasing that the copy loops at internal/dashboard/dashboard.go:53-62 prevent cannot arise in the model, and the lemma would hold without them.
- The ticker loop of `HealthCheck` is not modelled; `HealthCheckTick` is one iteration of it.
- The model does not track time: `Uptime`, `time.Now` and the uptime string of `GetStats` are omitted, and `Snapshot` has no uptime field.
- `StatsAPIHandler`, `DashboardHandler`, the JSON encoding and the embedded HTML are not modelled.
- The `flag` package, `flag.Parse`, `Usage` and `os.Getenv` are not modelled. The environment is a map parameter, and the flags are given already parsed (`Flags`). The flag package's own integer parsing is not modelled.
- Logging is not modelled.
- cmd/loadbalancer/main.go is not part of this model: the server lifecycle, signals, shutdown, and the pool construction from the backend list.
- Balancer.LoadBalancer.RoundRobin: the cursor is an unbounded `nat`, so the Go `uint64` wrap-around after 2^64 increments is not modelled.
- Backends.Backend.IncrementConnections: the Go `int` overflow of the counter is not modelled; the count is an unbounded integer.
- Dashboard.Stats.RecordRequest: the `int64` overflow of the counters is not modelled.
- Config.TrimSpaceSpec: strings are sequences of code points. Invalid UTF-8 and the byte-level behaviour of `strings.TrimSpace` are not modelled; white space is the set `unicode.IsSpace` accepts.
- Config.Atoi: the error value of `strconv.Atoi` is reduced to `None`, so a syntax error and a range error are not told apart.
