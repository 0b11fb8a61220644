# Expiring snippet store, modelled in Dafny

A model of the in-memory snippet service in `main.go`. It has two parts:

- **The expiring map** (`TTLMap`). Each string key maps to a value and an absolute deadline. A read returns the value only while the deadline is not strictly before the read time. This is a lazy check on every read. A background sweeper deletes every entry whose deadline the tick time is strictly after.
- **The snippet service** (`snippetService`), which keeps snippets in that map keyed by name:
  - `Create` fills in the public URL and stores the snippet under its own deadline. It returns the snippet with the seconds-to-live and the like count cleared.
  - `Get` returns the live snippet. It then schedules a renewal that re-stores it with thirty seconds to live.
  - `Like` adds one to the like count, renews the deadline to thirty seconds from now, and stores the snippet.

Time is an explicit argument: an `Instant` is an integer count of nanoseconds, standing in for `time.Now()`. `Before` and `After` are strict comparisons. The sweeper is the pure function `TtlMap.Sweep(m, now)`; `TtlMap.SweepRange` is its entry-by-entry loop and is proved equal to it. The renewal goroutine that `Get` spawns is the explicit later step `SnippetService.GetRenew(repo, name, sn, now)`. It takes the copy `sn` that `Get` read, because the goroutine does not read the store again.

Integer widths follow Go on a 64-bit platform such as amd64 or arm64, where `int` is 64 bits:
- `time.Second * time.Duration(n)` is an int64 product, so it wraps round modulo 2^64 (`Clock.Seconds`). Exactly 9223372037 seconds gives a deadline in the past; larger values wrap to durations of either sign.
- The like counter is an `int`, so `n++` wraps from the largest value to the smallest.

A nil `ExpiresIn` makes `SetExpiresAt` dereference a nil pointer. The model returns `Err(NilExpiresIn)` in that case.

Boundaries and renewal, as the code has them:
- An entry whose deadline equals the read time is still returned (`main.go:136`).
- The sweeper deletes only entries whose deadline is strictly before the tick (`main.go:147`).
- Because both checks use the same strict boundary, in this sequential model the sweep never changes what a reader sees (`TtlMap.SweepInvisible`).
- The renewal that `Get` schedules can undo a like and can bring back an expired snippet; see Findings.

Files: `wrappers.dfy` (option and result types), `clock.dfy` (instants, int64 wrap-around), `ttl_map.dfy` (the expiring map), `snippet.dfy` (the snippet record and its deadline), `service.dfy` (the service).

## Model

| member | source | states |
|---|---|---|
| TtlMap.Store | main.go:122-127 | the key's entry becomes the new deadline and value; every other key keeps its entry |
| TtlMap.Load | main.go:129-141 | absent exactly when the key has no entry or its deadline is strictly before `now`; otherwise the stored value |
| TtlMap.StoreThenLoad | main.go:122-141 | after storing `v` with deadline `ts`, a read at `now` gives `v` when `now <= ts` and nothing after |
| TtlMap.StoreLeavesOthers | main.go:122-141 | storing one key does not change the read of any other key at any time |
| TtlMap.StoreLastWins | main.go:122-127 | the second of two stores to the same key wins |
| TtlMap.Sweep | main.go:144-153 | keeps exactly the entries whose deadline is not before the tick time, each unchanged |
| TtlMap.SweepRange | main.go:145-153 | visiting each entry once and deleting those the tick is after gives exactly `Sweep` |
| TtlMap.SweepIdempotent | main.go:146-152 | sweeping twice at the same tick equals sweeping once |
| TtlMap.SweepInvisible | main.go:129-152 | a read at the tick time or later answers the same with or without the sweep |
| TtlMap.SweepKeepsOnlyLive | main.go:129-152 | a key survives the sweep exactly when a read at the tick time would find it |
| Clock.Wrap64 | main.go:213 | the result is an int64, differs from the input by a multiple of 2^64, and is the input itself when that already fits; one past the largest int64 becomes the smallest |
| Clock.Seconds | main.go:177 | the duration is an int64 congruent to `n` seconds in nanoseconds modulo 2^64, and equal to it whenever that fits in int64 |
| Clock.SecondsWrapsPositive | main.go:177 | 18446744074 seconds wraps round to a positive duration of 290448384 ns |
| Clock.SecondsWrapsNegative | main.go:177 | one second past the int64 range becomes a negative duration |
| Snippets.SetExpiresAt | main.go:176-179 | faults exactly when the seconds-to-live is absent; otherwise only the deadline changes, to `now` plus an int64 offset: exactly that many seconds in nanoseconds when they fit, otherwise the one int64 congruent to that product modulo 2^64 |
| Snippets.SetExpiresAtWraps | main.go:176-179 | a seconds-to-live of 9223372037 puts the deadline before `now` |
| SnippetService.Create | main.go:244-250 | never fails; stores the snippet with URL `listenAddr + "/snippets/" + name` under its name and deadline, keeping its seconds-to-live and likes; other keys unchanged; returns the stored copy with seconds-to-live and likes cleared |
| SnippetService.CreateThenGet | main.go:225-250 | a created snippet is fetched, with its URL, until its deadline and when its name is non-empty; a re-create replaces the old content |
| SnippetService.Get | main.go:225-233 | succeeds exactly when the name has an entry whose deadline is not before `now` and whose snippet name is non-empty; returns the stored snippet unchanged |
| SnippetService.GetRenew | main.go:234-240 | re-stores the copy read by the fetch with seconds-to-live 30 and deadline `now` + 30 s; no other field, including likes, changes; other keys unchanged |
| SnippetService.GetRenewSlides | main.go:225-241 | after a fetch and its renewal at `now`, a fetch succeeds exactly up to `now` + 30 s and returns the same snippet with the renewed deadline |
| SnippetService.Like | main.go:199-223 | not found and store untouched exactly when the snippet is not live; otherwise count + 1 (absent counts as 0, int64 wrap at the top), seconds-to-live 30, deadline `now` + 30 s, name, content and URL unchanged, and that same snippet is stored |
| SnippetService.LikesAccumulate | main.go:199-223 | k likes, each within 30 s of the one before, raise the count by exactly k and leave the deadline 30 s after the last |
| SnippetService.LikeChangesCount | main.go:208-217 | a like always changes the stored count, even at the int64 limit |
| SnippetService.SlidingScenario | main.go:176-250 | created at 0 s with 2 s to live and fetched at 1 s, a snippet is found at 3 s and at 31 s and gone one nanosecond after 31 s |
| SnippetService.StaleRenewalLosesLike | main.go:199-240 | a like between a fetch and that fetch's renewal is undone by the renewal |
| SnippetService.StaleRenewalResurrects | main.go:225-240 | a renewal that runs after the deadline makes an expired snippet readable again |
| SnippetService.GetRenewCurrent | main.go:225-240 | the corrected renewal: it re-reads the store, leaves it unchanged when the snippet is not live, and otherwise only extends the deadline |
| SnippetService.CurrentRenewalKeepsLike | main.go:199-240 | with the corrected renewal, a like before the renewal keeps its count |
| SnippetService.CurrentRenewalNoResurrection | main.go:225-240 | the corrected renewal never makes an absent snippet readable |

## Findings

| source | as written | input that shows it | evidently intended | confidence | as-written member | corrected member |
|---|---|---|---|---|---|---|
| main.go:234-240 | the renewal goroutine stores the copy `sn` read by `Get`, likes included | `Get("a")` at t, then `Like("a")` at t, then the renewal: the count is back to its value before the like. The HTTP like handler (main.go:298-304) itself calls `Get` before `Like`, so every like risks this | a renewal only extends the deadline of what is stored now | medium, not executed | SnippetService.StaleRenewalLosesLike | SnippetService.CurrentRenewalKeepsLike |
| main.go:234-240 | the renewal re-stores the copy whatever the time when it runs | `Get("a")` at t with deadline d, renewal running at some time after d: the expired snippet is readable again | a renewal never brings back a snippet that has expired | medium, not executed | SnippetService.StaleRenewalResurrects | SnippetService.CurrentRenewalNoResurrection |

`GetRenew` stays the model of the source's renewal. `GetRenewCurrent` is the corrected renewal; the two lemmas in the last column prove the intended properties about it.

## Left out

- HTTP handlers, JSON encoding and decoding, routing, and the logging and tracing middleware (main.go:252-352). These are transport plumbing. The handlers' extra steps are not modelled: `SetExpiresAt` before `Create`, and `Get` before `Like`.
- `main`, flag parsing, shutdown on a signal, the `healthy` flag and `health()`. These are process lifecycle and I/O. `listenAddr` is a parameter of `Create`.
- Concurrency. `sync.Map`, goroutine scheduling and `time.Tick` are replaced by a sequential map, a sweep that is a function of its tick time, and renewal as an explicit later step. Races cannot be expressed in this sequential model: lost updates between truly concurrent likes, and the sweeper's check-then-delete (main.go:146-149), which tests the entry it saw and then deletes the key without checking again, so a `Store` landing in between, such as a re-`Create` of the same name, is deleted.
- SnippetService.Get: in the source the renewal goroutine writes the captured variable `sn` while `return sn` copies it (a data race). The model takes the order in which the return copies the snippet first, so `Get` returns the stored snippet unchanged.
- Go's `time.Time`: wall and monotonic readings and overflow of the instant itself are not modelled. Instants are unbounded integers; only the int64 duration product wraps.
- Failed operations return `Snippet{}` and an error in the source. The model returns `Err(NotFound)` without the zero snippet.
- Go's `int` on a 32-bit platform: the model takes `int` to be 64 bits, so the like counter's wrap at 2^31 and the int32 seconds-to-live of a 32-bit build are not modelled.
- The sweeper's log line, `rand.Seed`, the unused `urls` map and `TTL` field, and the `stop` type. None of them affects the store.
- `NewTTLMap` hands its goroutine the named result `m` before `m` is assigned. The sweep reads it only after the first one-second tick, so the model treats the sweeper as bound to its map.
