# Typed cache store (kirkwood) — Dafny model

This project models the in-memory store at the heart of a small HTTP
key-value cache written in Go (`main.go`). The store holds two tables keyed
by Go `interface{}` values — the entry table `x_cache` and the access-count
table `x_count` — and a dirty flag `sched` that tells the background
persister a snapshot is due. Its operations are:

- `create(k, v)`: 201 and insert with count 0 if `k` is absent, 409 otherwise;
- `update(k, v)`: 204 and replace the value if `k` is present, 404 otherwise;
- `get(token)`: resolve the URL token into typed candidates (the string, then
  the `strconv.ParseInt` result, then `ParseFloat`, then `ParseBool`), report
  every cached candidate in that order, and apply the eviction rule to each:
  a count of 99 removes the entry, any other count is incremented; 200 if
  anything matched, 404 otherwise;
- `rm(token)`: the empty token clears both tables; otherwise every cached
  candidate is removed whatever its count; 204 if anything was removed (or
  the token was empty), 404 otherwise;
- `flatten()`: list every entry once;
- `scheduleUpdate()` and the persister's compare-and-swap of `sched`.

Modules:

- `Keys` (keys.dfy): the key type, which keeps Go's dynamic types apart
  (`Str`, `Int` for Go `int`, `Int64`, `F64`, `Bool`), and the parsers
  `ParseInt` (base 10, 64 bits) and `ParseBool` (the twelve spellings Go
  accepts). Floats and values are abstract types; `ParseFloat` is a
  parameter of the store.
- `Resolver` (resolver.dfy): the candidate list of a token, and `GetLookup`,
  the key `get` actually looks up for a candidate.
- `Spec` (store_model.dfy): the store as a pure state machine, with the lemmas.
- `CacheStore` (store.dfy): class `Store` with the fields `cache`, `count`,
  `dirty`, whose methods update them in place as the Go functions do and are
  proved equal to the `Spec` functions.
- `Scheduler` (scheduler.dfy): runs of operations, the dirty flag and the
  persister's test-and-clear.

The integer branch of `get` is modelled as written: it looks the key up as a
Go `int` (`x_cache[int(i)]`) but reports, counts and evicts it as the
`int64` that `ParseInt` returned, while `rm` looks integers up as `int64`
only. Consequences proved here: an `Int` entry is returned tagged `Int64`,
is never evicted by `get` and never removed by `rm` of a non-empty token
(`Spec.GetIntKey`, `Spec.IntEntriesSurvive`, `Spec.CrossTypeDelete`), and a
read of an `Int` entry creates a count under the `Int64` key that the entry
table does not have (`Spec.PhantomCount`). For that reason the invariant
the code keeps is weaker than "both tables have the same keys": every cached
key has a count and every count is in 0..99 (`Spec.Valid`). Three
expectations one might bring to a cache of this kind do not hold for the
code, and the model follows the code: the two tables do not always have the
same key set (as above); the shutdown path flushes only when the dirty flag
is set, running the same conditional test-and-clear as the ticker
(main.go:74-75); and booleans are not only "true"/"false", since
`ParseBool` accepts `1 t T TRUE true True` and `0 f F FALSE false False`.

## Model

| member | source | states |
|---|---|---|
| `Keys.ParseInt` | main.go:134 | a parsed integer lies in the int64 range, and a negative result comes from a leading '-' |
| `Keys.ParseFormatInt` | main.go:134 | every int64 written in decimal parses back to itself |
| `Keys.ParseFormatBool` | main.go:156 | "true" and "false" parse back to their booleans |
| `Keys.ParseBool` | main.go:156 | an accepted token has one to five characters, a true one starts with 1, t or T and a false one with 0, f or F |
| `Keys.ParseBoolSpellings` | main.go:156 | exactly the twelve spellings are accepted, six per boolean and none shared, so no token is both true and false |
| `Keys.DigitTokensAreAlsoBooleans` | main.go:134-166 | the tokens "1" and "0" yield both an integer and a boolean candidate |
| `Resolver.Candidates` | main.go:124-166 | the string candidate comes first; candidates appear in the order string, integer, float, boolean; a key is a candidate exactly when its parse of the token succeeds with that value |
| `Resolver.GetLookup` | main.go:135 | the key looked up has the candidate's position in the order and is never an int64 |
| `Resolver.CandidatesNoLookBack` | main.go:124-166 | candidates are distinct and no candidate's lookup key is an earlier candidate, so the four lookups do not interfere |
| `Resolver.NumericTokenCandidates` | main.go:125-143 | "123" resolves to the string "123" and then the int64 123 |
| `Spec.CreateContract` | main.go:107-117 | 201 exactly when the key is absent, inserting the value with count 0 and setting dirty; otherwise 409 with nothing changed |
| `Spec.Valid` | main.go:107-174 | the invariant the operations keep: every cached key has a count and every count lies in 0..99, so a cached key's count is in 0..99 |
| `Spec.Create` | main.go:107-117 | answers 201 or 409, the key set afterwards is the old one plus the key, and the invariant is kept |
| `Spec.Update` | main.go:96-105 | answers 204 or 404, leaves the key set and every count as they were, and keeps the invariant |
| `Spec.Touch` | main.go:125-133 | one lookup adds no key, appends one entry to the report exactly when the lookup key is cached and keeps the earlier entries, and keeps the invariant |
| `Spec.TouchAll` | main.go:125-166 | the lookups add no key to the cache, leave the flag alone and report at most one entry per candidate |
| `Spec.GetFrom` | main.go:119-174 | answers 200 exactly when something is reported, else 404; a 200 sets the flag; no key is added |
| `Spec.Get` | main.go:119-174 | answers 200 exactly when something is reported, reports at most four entries and adds no key |
| `Spec.GetFromState` | main.go:119-174 | the whole new state of a read: no key added, no value changed, non-candidates keep their place and count, every candidate goes through the eviction rule once, and the flag is set exactly on a 200 |
| `Spec.GetState` | main.go:119-174 | the same whole new state for the real candidates of any token |
| `Spec.UpdateContract` | main.go:96-105 | 204 exactly when the key is present; only that key's value changes, counts and key set stay, dirty is set; otherwise 404 with nothing changed |
| `Spec.TouchEffect` | main.go:125-133 | one candidate lookup changes only its own key, applies the eviction rule to it and changes no value |
| `Spec.MatchesMembers` | main.go:124-166 | an entry is reported exactly when its key is a candidate whose lookup key is cached, with the cached value |
| `Spec.TouchAllReports` | main.go:124-166 | the lookups report exactly the reference list Matches of the original table, in candidate order |
| `Spec.TouchAllFrame` | main.go:124-166 | a read never adds a key or changes a value, and leaves every non-candidate key and its count alone |
| `Spec.TouchAllAt` | main.go:127-141 | every candidate goes through the eviction rule exactly once, judged on the original table |
| `Spec.TouchAllMiss` | main.go:168-173 | a read with no cached candidate changes nothing and reports nothing |
| `Spec.GetFromContract` | main.go:119-174 | a read over any non-interfering candidate list reports Matches, answers 200 exactly when some candidate is cached and sets dirty, otherwise 404 with the state unchanged |
| `Spec.GetContract` | main.go:119-174 | the same for the candidates of the token |
| `Spec.TouchAllPreservesValid` | main.go:127-132 | the lookups keep every cached key counted and every count in 0..99 |
| `Spec.GetPreservesValid` | main.go:119-174 | `get` keeps the store invariant |
| `Spec.GetDirect` | main.go:125-133 | a cached string, float or boolean candidate is returned with its value and then evicted at count 99 or counted one higher |
| `Spec.GetIntKey` | main.go:134-143 | a cached int is returned tagged as int64; the count and eviction apply to the int64 key; the int entry keeps its value and count |
| `Spec.PhantomCount` | main.go:134-143 | after reading an int entry the count table has an int64 key the entry table lacks |
| `Spec.ReadsShrink` | main.go:119-174 | repeated reads never add a key to the entry table |
| `Spec.ReadsBeforeEviction` | main.go:127-132 | while its count stays at most 99 a directly named entry survives each read with the same value and one more count |
| `Spec.ReadsStayEvicted` | main.go:119-174 | a key that has left the cache after some number of reads stays absent after any later number |
| `Spec.CreatedKeyLifetime` | main.go:107-133 | after create, reads 1-99 return the value and leave count n; read 100 returns it and removes the key from both tables; later reads never report it |
| `Spec.CreatedKeyLifetimeOfToken` | main_test.go:227-242 | the same lifetime for the candidates of a real token |
| `Spec.DropAllEffect` | main.go:187-212 | the deletions remove exactly the cached candidates from both tables and report whether any was cached |
| `Spec.RmContract` | main.go:176-219 | the empty token empties both tables, sets dirty and answers 204; otherwise the cached candidates go from both tables, 204 and dirty exactly when one was cached, else 404 with nothing changed |
| `Spec.Drop` | main.go:187-191 | one deletion removes the key from the cache, reports found exactly when it was found before or the key was cached, and keeps the invariant |
| `Spec.DropAll` | main.go:187-212 | the deletions add no key, never forget an earlier find, leave the flag alone and keep the invariant |
| `Spec.Rm` | main.go:176-219 | answers 204 or 404, a 204 sets the flag, the empty token always answers 204 with an empty cache, no key is added, and the invariant is kept |
| `Spec.TakeDirty` | main.go:50 | reports the old flag and leaves it clear, with both tables unchanged |
| `Spec.RmPreservesValid` | main.go:176-219 | `rm` keeps the store invariant |
| `Spec.IntEntriesSurvive` | main.go:134-198 | neither `get` nor `rm` of a non-empty token removes or changes an int entry or its count |
| `Spec.MatchesHead` | main.go:125-126 | a cached first candidate is reported first |
| `Spec.CreateThenGetString` | main.go:107-133 | a created string key read by its own text comes back first with its value |
| `Spec.IntTokenCandidates` | main.go:125-156 | an integer token's candidates are its string, then its int64, then only float or boolean kinds |
| `Spec.MatchesMissTail` | main.go:145-166 | candidates whose lookup keys are not cached add nothing to a read's report |
| `Spec.MatchesFirstTwo` | main.go:125-143 | when only the first two candidates' lookup keys are cached, a read reports exactly those two entries, in candidate order |
| `Spec.CrossTypeRead` | main.go:125-143 | with the string key of an integer token's text and the int key of its value both cached, reading the token returns both, the string first and the int tagged int64 |
| `Spec.CrossTypeDelete` | main.go:187-198 | deleting an integer token removes the string key of that text and keeps the int key of that value |
| `CacheStore.Store.constructor` | main.go:319-321 | the store starts with two empty tables and a clear flag |
| `CacheStore.Store.ScheduleUpdate` | main.go:42-44 | sets the dirty flag and nothing else |
| `CacheStore.Store.TakeDirty` | main.go:50 | returns the old flag and leaves it clear, tables untouched |
| `CacheStore.Store.Create` | main.go:107-117 | in-place create equals Spec.Create and keeps the invariant |
| `CacheStore.Store.Update` | main.go:96-105 | in-place update equals Spec.Update and keeps the invariant |
| `CacheStore.Store.Touch` | main.go:125-133 | one lookup of `get`, in place, equals Spec.Touch |
| `CacheStore.Store.TouchParsed` | main.go:134-166 | the lookup of one parsed candidate (int64, float or bool), in place, extends the fold by that candidate or by nothing when the parse failed |
| `CacheStore.Store.Report` | main.go:168-173 | after the lookups, answers 200 and schedules a flush when something was found, else 404 with the flag untouched, equal to Spec.GetFrom, keeping the invariant |
| `CacheStore.Store.TouchCandidates` | main.go:124-166 | the four lookups of `get`, in place, equal the fold over the token's candidates |
| `CacheStore.Store.Get` | main.go:119-174 | in-place `get` equals Spec.Get (entries, code, new state) and keeps the invariant |
| `CacheStore.Store.Drop` | main.go:187-191 | one deletion of `rm`, in place, equals Spec.Drop |
| `CacheStore.Store.DropParsed` | main.go:192-212 | the deletion of one parsed candidate, in place, extends the fold by that candidate or by nothing when the parse failed |
| `CacheStore.Store.DropCandidates` | main.go:187-212 | the four deletions of `rm`, in place, equal the fold over the token's candidates |
| `CacheStore.Store.Rm` | main.go:176-219 | in-place `rm` equals Spec.Rm and keeps the invariant |
| `CacheStore.Store.Flatten` | main.go:221-232 | returns one entry per key with that key's value, no key twice, length equal to the table size; changes nothing |
| `Scheduler.StepDirty` | main.go:96-219 | an operation sets the dirty flag exactly when it answers 200, 201 or 204, and never clears it |
| `Scheduler.StepPreservesValid` | main.go:96-219 | every operation keeps the store invariant |
| `Scheduler.RunPreservesValid` | main.go:96-219 | the invariant holds after any sequence of operations |
| `Scheduler.RunDirty` | main.go:96-219 | after a run the flag is set exactly when it was set before or some operation succeeded |
| `Scheduler.Coalescing` | main.go:46-80 | between two checks any number of operations produce one positive check (exactly when one succeeded) and the next check is negative; checks do not touch the tables |

## Left out

- HTTP transport (`handler`, `serve`, `parseArg`, main.go:234-316): routing, JSON decoding of request bodies, the `%v` key check of PUT and the shaping of responses (one match as an array, several as a `{"cache": ...}` object) depend on `encoding/json` and `fmt`, which are not part of this model.
- Persistence I/O (`persist`/`unpersist`, main.go:46-94): gob encoding, the snapshot file and the 500 ms ticker are not modelled; only the dirty flag, its setting and its test-and-clear are. A snapshot loaded at start-up is not modelled, so the store always starts empty.
- The mutex, goroutines and signal handling in `main` (main.go:318-348): each store operation is modelled as atomic, which the single lock guarantees. The seeding calls in `main` are not modelled.
- `strconv.ParseFloat` and IEEE-754 arithmetic: floats are an abstract type compared only for equality (NaN keys are not modelled) and ParseFloat is a parameter of the store.
- Values are an abstract type: the store never inspects them.
- Go `int` is taken to be 64 bits wide, so `int(i)` at main.go:135 is the identity and `GetLookup` turns `Int64(i)` into `Int(i)` with the same value; the truncation a 32-bit target would apply is not modelled.
- Go's map iteration order: `Store.Flatten` returns the entries in an order the model leaves open, as Go does.
- main_test.go: an HTTP integration suite against a live server; it is used only as evidence for the lifetime and round-trip lemmas.
