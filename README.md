# Traffic allocation: targets, counters and the decision engine

This project models the core of a real-time traffic-allocation service. Advertisers
register *targets*. A target has a url, a bid `value`, a daily cap
`maxAcceptsPerDay`, and acceptance rules on the visitor's geographic state and UTC
hour. For each incoming visitor the service picks a target, or rejects the visitor.

The store is two hashes: `targets` maps a target id to its record, and `traffic`
maps a target id to the number of decisions that accepted it. The model is the
class `Api.Store`, which holds both hashes as Dafny maps. Its methods are the
source's operations:

- `UpsertTarget` writes a whole record under its id. An earlier record with the same id is replaced.
- `GetTargets` lists every stored record once, in an order the store does not fix. The loop picks keys with `:|`.
- `GetTarget` looks up one record, or gives nothing.
- `MakeDecision` decides for one visitor:
  - it fetches the targets;
  - it rejects with code 503 when there are none;
  - it sorts a copy in an array by value, highest first, with a stable in-place insertion sort;
  - it scans for the first eligible target;
  - on an accept it adds one to that target's counter, writes the record back and answers 200 with the url;
  - otherwise it answers 503 with a reject.

The rules are specification functions in `Engine`:

- `Eligible` is the cap check (an absent counter counts as 0), the geo check and the hour check. The hour is compared as its decimal string, as `Number.prototype.toString` writes it; see `Decimal`.
- `Choose` is the first eligible target in ranked order. `DecisionOf` and `AfterDecision` give the answer and the new `traffic` hash.
- `Ranking.SortByValue` is the stable descending order.

`MakeDecision` is proved to answer `DecisionOf` and to leave `AfterDecision` in
`traffic`. Both are stated for the order in which the store listed the targets,
which the method returns as a ghost out-parameter. The lemmas then prove the
engine's properties for every listing order:

- the highest-value eligible target wins;
- ties go to the earlier fetched target;
- a reject happens exactly when nothing is eligible;
- exactly one counter moves, by one;
- a capped target is accepted at most its cap times over any sequence of decisions.

Two details of the accept path, which the model follows as written:

- The counter is raised by a read followed by a write (`hget`, then `hset`, at src/api.js:76-77). Under concurrent requests that pair can lose an update. The model runs each call to completion before the next, so it cannot show that.
- On an accept the code also writes the accepted record back to `targets` (src/api.js:78). The model does this too and proves that it leaves `targets` unchanged.

## Model

| member | source | states |
|---|---|---|
| `Api.Store.constructor` | src/api.js:1-2 | the Redis store the module works on, started empty: a new store holds no target and no counter, and every record sits under its own id |
| `Api.Store.UpsertTarget` | src/api.js:4-12 | the record is stored under its id and replaces any earlier one; reading that id back gives the record; every other id reads as before; `traffic` is unchanged; code 200 |
| `Api.Store.GetTargets` | src/api.js:14-20 | the result lists every stored record exactly once (distinct ids, each equal to the record stored under its id, every id present); code 200 |
| `Api.Store.GetTarget` | src/api.js:22-27 | a result is a stored record carrying the asked id; nothing is returned only when no stored record has that id |
| `Api.ListedAfterUpsert` | src/api.js:4-20 | after an upsert of `t`, any listing of the store holds `t` and no other record with its id |
| `Api.Store.ScanRanked` | src/api.js:58-63 | the while loop stops at the first eligible ranked target: on accept `index - 1` is its position, otherwise no ranked target is eligible |
| `Api.Store.RecordAccept` | src/api.js:76-78 | on accept the chosen counter becomes the stored count plus one (1 when absent), every other counter is unchanged, and the write-back leaves `targets` as it was |
| `Api.Store.MakeDecision` | src/api.js:43-87 | the answer is `DecisionOf` on the fetched listing: 200 with the url of the chosen target, or 503 reject, also when there are no targets; `traffic` becomes `AfterDecision`; `targets` is unchanged |
| `Types.TrafficOf` | src/api.js:36 | computes the stored count of a target, 0 when the `traffic` hash has no entry for its id |
| `Types.Increment` | src/api.js:76-77 | the counter of `id` becomes the old count plus one, an absent one becoming 1; every other id's count is unchanged |
| `Decimal.DecimalString` | src/api.js:39-41 | `toString` of the hour gives a non-empty digit string with no leading zero, one digit exactly for 0 to 9 |
| `Decimal.ValueOfDecimalString` | src/api.js:39-41 | the decimal string of `n` reads back as `n` |
| `Decimal.DecimalStringOfValue` | src/api.js:39-41 | every canonical digit string is the decimal string of the number it denotes |
| `Decimal.HourLabelMatch` | src/api.js:39-41 | the hour's string is among the labels exactly when some canonical label denotes that hour, so "013" never matches |
| `Ranking.Insert` | src/api.js:55-56 | computes the descending sequence with `x` placed after every target whose value is at least `x.value`; the result is one longer than the input |
| `Ranking.SortByValue` | src/api.js:55-56 | computes the order the comparator `Number(t2.value) - Number(t1.value)` gives with a stable sort, by inserting each fetched target in turn; the result is as long as the input |
| `Ranking.InsertInPlace` | src/api.js:55-56 | one step of the in-place sort: the prefix `a[..i + 1]` becomes `Insert` of the old sorted prefix and the old `a[i]`, and the rest of the array is unchanged |
| `Ranking.SortIsPermutation` | src/api.js:55-56 | the ranked sequence is a permutation of the fetched targets |
| `Ranking.SortIsDescending` | src/api.js:55-56 | in the ranked sequence values never increase |
| `Ranking.SortIsStable` | src/api.js:55-56 | for every value, the targets of that value keep their fetched relative order |
| `Ranking.RankTargets` | src/api.js:55-56 | the array that is sorted holds exactly the ranked sequence of the fetched targets |
| `Ranking.SortByValueInPlace` | src/api.js:55-56 | sorting the array in place leaves exactly the ranked sequence of its old contents |
| `Engine.Eligible` | src/api.js:34-41 | computes `_isAccepted`: the cap is above the stored count (0 when absent) and the target `Matches` the visitor |
| `Engine.Matches` | src/api.js:37-40 | computes the two rules that do not read the counters: the visitor's state is in the target's list, and the decimal string of the UTC hour is among its hour labels |
| `Engine.Choose` | src/api.js:55-74 | computes the accepted target: the first `Eligible` one in `SortByValue` order, or none; its properties are stated by `ChooseAccepts`, `ChooseRejects` and `ChooseTieBreak` |
| `Engine.FirstEligible` | src/api.js:58-63 | the result is the index of an eligible target with no eligible target before it, or none when no target is eligible |
| `Engine.EligibleByNumericHour` | src/api.js:34-41 | a target is eligible exactly when its counter (0 when absent) is below its cap, the visitor's state is in its list, and one of its hour labels denotes the visitor's UTC hour |
| `Engine.ChooseAccepts` | src/api.js:58-74 | an accepted target is one of the fetched targets, is eligible, has its counter below its cap, and no eligible fetched target has a greater value |
| `Engine.ChooseRejects` | src/api.js:65-72 | the decision rejects exactly when no fetched target is eligible |
| `Engine.ChooseTieBreak` | src/api.js:55-63 | among the fetched targets of the accepted target's value, the accepted one is the first eligible in fetched order |
| `Engine.DecisionOf` | src/api.js:43-87 | the answer is an accept exactly when some fetched target is eligible |
| `Engine.AfterDecision` | src/api.js:65-78 | after a reject `traffic` is unchanged; after an accept only the chosen target's counter changes, by exactly one |
| `Engine.CounterCountsAccepts` | src/api.js:76-77 | over a sequence of decisions a target's counter grows by exactly the number of decisions that accepted it |
| `Engine.CapBoundsAccepts` | src/api.js:34-78 | over sequential decisions against the same targets, a target with cap N and start count s is accepted at most N - s times (none when s >= N) |
| `Engine.OnlyMatchRound` | src/api.js:34-41 | when only one stored target matches the visitor, the decision accepts it exactly when its counter is below its cap, and otherwise rejects |
| `Engine.CapReachedExactly` | src/api.js:34-78 | when one target is the only one matching every visitor, it is accepted for exactly min(number of decisions, cap - start count) of them |
| `Scenarios.HighestValueWins` | test/endpoints.js:207-243 | with matching targets of value 0.50, 3 and 7, in any listing order and whatever the counters hold as long as the value-7 target is below its cap of 10, the value-7 target's url is returned |
| `Scenarios.HourOutsideRejects` | test/endpoints.js:89-106 | a visitor at hour 23 is rejected by a target accepting hours 13 to 15, whatever the counters hold |
| `Scenarios.GeoOutsideRejects` | test/endpoints.js:148-165 | a visitor from "la" is rejected by a target accepting "ca" and "ny", whatever the counters hold |

## Left out

- Redis itself, `promisify` and `_execRedisCommandAsync` (src/api.js:29-32). They become direct reads and writes of the two map fields.
- The order of `HVALS`, which Redis leaves unspecified. `GetTargets` picks keys nondeterministically, and every property of a decision is proved for any listing order.
- JSON serialisation of records (src/api.js:5, 18). Records are stored as values, with an exact round trip assumed. `getTarget` returning the raw stored string, and `null` for a missing id, is modelled as `Option<Target>`.
- Api.Store.GetTarget: does not return the code 200 that `getTarget` always answers, because it is a lookup function.
- `Number(...)` parsing of `value`, `maxAcceptsPerDay` and the stored count. `value` is a `real`, the cap an `int` and counts are `nat`. NaN, strings that do not parse, and floating-point rounding are not modelled.
- `new Date(visitor.timestamp).getUTCHours()`. The visitor carries its UTC hour as a number below 24, so invalid timestamps are not modelled.
- Concurrency. Interleaved requests, and the lost update that the non-atomic read-then-write increment (src/api.js:76-77) allows, are outside a sequential model. Each call is atomic here.
- Store failures, which the source propagates as rejected promises. The model has no failing store.
- The HTTP server, routing, CORS, logging and health check in lib/server.js. lib/redis.js is not part of this model.
- A daily reset of the counters. The source has none, and neither does the model.
