# inferencia, modelled and proved

inferencia is an API gateway in front of language-model and speech backends. This project
models the parts of it that keep state under concurrency or parse what they did not write, and
proves what they promise.

- **Dispatch.** `LoadBalancer.dfy` is the least-connections balancer, a class with the
  source's counters and its wrapping 64-bit turn counter. Choosing a backend and counting the
  request against it are two critical sections, so `Dispatch.dfy` models requests as steps
  Select, Acquire and Release that interleave freely, and proves conservation of the counters,
  load bounds and balance over every run; `DispatchTightness.dfy` shows that the bounds are
  attained and when the even share is one. `Gateway.dfy` adds health reads and health checks as
  further steps, proves that a chosen backend was healthy when its request read it, and bounds
  load by the backends that stay up.
- **Registries.** `BackendRegistry.dfy` (chat and embeddings) and `Router.dfy` with
  `Scoring.dfy` (speech) are the two clients of the balancer, for every map iteration order.
- **Watchdog.** `Watchdog.dfy` is the consecutive-failure state machine, refined against the
  history of its probes; `WatchedSelection.dfy` says what the two registries select in terms of
  that history.
- **Rate limiter.** `RateLimiter.dfy` is the token bucket with its eviction tick;
  `RateLimiterLaws.dfy` characterises it exactly over traces of any keys, times and ticks.
- **Event-stream relay.** `EventStream.dfy` has the adapters' scan loop and the handler's
  printer, `EventStreamLaws.dfy` their round trips, and `EventStreamClient.dfy` an independent
  reader written from the WHATWG HTML Standard.
- **Error classification.** `ApiErrors.dfy` classifies every error exactly, by its flags, the
  phrases it says and the status it names, and reads back the status the adapters print.

Objects whose methods update fields are classes, and each of their methods is proved against
specification functions (`Choose`, `Check`, `Level`, `ScanFrom`, ...); the laws are lemmas about
those functions and about runs built from them. Where a claim one would expect is false of the
code, the exact condition is proved instead, with an input that breaks it:

- the ceiling of the even share bounds a backend's load exactly when at most one request can be
  between Select and Acquire or there is one candidate (`CeilingHoldsIff`,
  `InterleavingCollides`); the bound that survives interleaving is proved and attained
  (`OutstandingBound`, `OutstandingBoundAttained`);
- round-robin order is broken by the wrap of the turn counter unless the number of ties divides
  2^64 (`EveryTieServedOnce`, `WrapBreaksARound`);
- evicting idle buckets is observable when ten minutes do not refill a whole burst
  (`EvictionInvisibleIff`, `EarlyRefillObservable`), and under the same condition a denied call
  is not a no-op, since it postpones an eviction (`DenialsAreNoOpsIff`);
- the `Retry-After: 1` of a rejection can be kept exactly when the rate is at least one
  (`RetryAfterHonestIff`);
- an exact model match outranks a backend without one exactly when its backend has more
  matches, the exact ones counted twice (`ExactOutranksIff`, `PrefixesCanOutrankExact`);
- a relayed stream survives a second relay, or a browser, only without stray carriage returns
  (`RoundTripIff`, `RelayTwiceIff`, `ClientSeesPayloadsIff`).

A clock reading is taken inside the limiter's lock, so time never runs backwards along a trace.
A selection reads the health of each name at most once; its reads are a function from names to
answers, which covers every interleaving with the prober, and `None` is the nil checker.

## Model

| member | source | states |
|---|---|---|
| LoadBalancing.LoadBalancer.Acquire | internal/backend/loadbalancer.go:18-23 | counts one more request against the name and touches nothing else |
| LoadBalancing.LoadBalancer.Release | internal/backend/loadbalancer.go:25-32 | counts one request less, never below zero |
| LoadBalancing.LoadBalancer.Select | internal/backend/loadbalancer.go:34-65 | the two-pass selection returns what the specification chooses, leaves the counts alone and advances the wrapping turn only when there was a choice |
| LoadBalancing.Choose | internal/backend/loadbalancer.go:48-64 | the pick is a candidate of least load |
| LoadBalancing.Ties | internal/backend/loadbalancer.go:48-60 | the tie list holds exactly the least-loaded candidates, without repetition when the candidates have none |
| LoadBalancing.NoChoiceNoTurn | internal/backend/loadbalancer.go:38-43 | a selection over at most one candidate leaves the turn, and so the next pick over any list, as it was |
| LoadBalancing.PickAt | internal/backend/loadbalancer.go:62-63 | the k-th of a series of selections reads the tie list at the wrapped turn, for every turn value |
| LoadBalancing.RotationInOrder | internal/backend/loadbalancer.go:62-63 | over unchanged loads a round of selections is a rotation of the tie list |
| LoadBalancing.EveryTieServedOnce | internal/backend/loadbalancer.go:62-63 | a round serves every tied backend once if and only if it ends before the turn counter wraps or the number of ties divides 2^64 |
| LoadBalancing.WrapBreaksARound | internal/backend/loadbalancer.go:62-63 | at the last turn three ties are served first, first, second |
| Dispatch.StepConserves | internal/backend/loadbalancer.go:18-65 | each critical section keeps every counter equal to its starting value plus the number of requests being served, and a release always finds a positive counter |
| Dispatch.InFlightCountsConserved | internal/handler/chat.go:39-44 | the same in every state of every interleaved run, whatever the loads it starts from |
| Dispatch.ChosenHasEvenShare | internal/backend/loadbalancer.go:48-64 | a backend chosen among k candidates carried at most its even share of the requests in flight |
| Dispatch.CommitmentStep | internal/backend/backend.go:160-161 | acquiring and releasing never raise what a backend is committed to; a selection raises it at most to the chosen load plus the requests still waiting to be counted |
| Dispatch.CommitmentsBounded | internal/backend/backend.go:160-161 | a bound on every selection bounds every backend in every state |
| Dispatch.LoadBound | internal/backend/backend.go:147-168 | with at most w requests between Select and Acquire, candidate lists of k names and p requests in flight at the peak, no backend is committed to more than p/k + w |
| Dispatch.OutstandingBound | internal/router/router.go:77-87 | against a peak t of outstanding requests the bound is (t - w)/k + w |
| Dispatch.AtomicLoadBound | internal/router/router.go:77-87 | with one request between Select and Acquire at a time the bound is the ceiling of t/k |
| DispatchTightness.SteeredOrder | internal/backend/loadbalancer.go:48-64 | at every turn, some order of the candidates makes a given least-loaded one the pick |
| DispatchTightness.OutstandingBoundAttained | internal/router/router.go:77-87 | for every k >= 1 and 1 <= w <= t a run attains (t - w)/k + w on one backend |
| DispatchTightness.InterleavingCollides | internal/router/router.go:84-85 | for every k >= 2 and w >= 2 a run in which all w requests select the same idle backend before any is counted, above the ceiling of its even share |
| DispatchTightness.CeilingHoldsIff | internal/router/router.go:77-87 | the ceiling of t/k bounds every backend in every run if and only if w <= 1 or k = 1 |
| Dispatch.BalanceKept | internal/backend/loadbalancer.go:34-65 | from equal loads and without releases, a backend is never committed to more than any other backend's load plus w |
| Dispatch.EvenSpread | internal/backend/loadbalancer.go:34-65 | dispatching one request at a time from any common load adds to every backend's load the floor or the ceiling of its even share |
| Dispatch.PickIsSelectThenAcquire | internal/backend/backend.go:160-161 | what the registries' selections promise about the balancer is a Select followed by an Acquire of the protocol |
| Dispatch.HandlerRestoresLoads | internal/handler/chat.go:39-44 | selecting, counting and releasing without interruption are three steps of the protocol that restore every load and every other request |
| Watchdogs.HealthIsTrailingRun | internal/watchdog/watchdog.go:97-173 | a backend is healthy exactly while its trailing run of failed probes is shorter than the threshold (at least one), and unprobed backends are healthy |
| Watchdogs.OtherProbesInvisible | internal/watchdog/watchdog.go:139-173 | probing other backends changes neither the failure run nor the health of a backend |
| Watchdogs.CheckExtends | internal/watchdog/watchdog.go:139-173 | one more check sets its backend's run of failures to zero or one more, moves no other backend's run, and leaves the state and the gauge value in agreement |
| Watchdogs.Watchdog.constructor | internal/watchdog/watchdog.go:53-62 | a new watchdog has no states and an empty history |
| Watchdogs.Watchdog.IsHealthy | internal/watchdog/watchdog.go:97-106 | answers whether the trailing run of failures is below the threshold |
| Watchdogs.Watchdog.CheckBackend | internal/watchdog/watchdog.go:129-173 | appends the result to the history and sets the gauge to the health that follows from it |
| Watchdogs.Watchdog.ProbeCycle | internal/watchdog/watchdog.go:108-127 | after a cycle the gauge of every probed backend matches its health, and other backends' gauges and runs have not moved |
| Gateway.HealthFollowsHistory | internal/watchdog/watchdog.go:136-173 | in every interleaving the watchdog state is the one its probe history determines |
| Gateway.ListedWasRead | internal/router/router.go:32-37 | every name on a candidate list was read as healthy by the same request |
| Gateway.ChosenWasHealthyWhenRead | internal/backend/backend.go:155-161 | in every interleaving, when its request read it, the chosen backend had fewer trailing failed checks than the threshold (at least one) |
| Gateway.CandidatesCoverUp | internal/backend/backend.go:170-184 | every candidate list of a chat request holds all backends whose trailing failed checks stay below the threshold |
| Gateway.NoneTurnedAway | internal/backend/backend.go:155-158 | while some registered backend stays up, no chat request is turned away |
| Gateway.GatedLoadBound | internal/backend/backend.go:145-184 | while u backends stay up, in every interleaving with the health checks no backend serves more than p/u + w requests, and every counter equals the requests served |
| BackendRegistry.Registry.constructor | internal/backend/backend.go:98-104 | an empty registry with an idle balancer |
| BackendRegistry.Registry.Register | internal/backend/backend.go:106-116 | stores the backend under its own name; the first name becomes the primary; the registry invariant is kept |
| BackendRegistry.Registry.Get | internal/backend/backend.go:118-131 | a found backend reports the name asked for; a name is found exactly when some registered backend reports it; the empty name finds the primary and fails only on an empty registry |
| BackendRegistry.Registry.HealthyOrder | internal/backend/backend.go:170-184 | for every map order, lists each once exactly the registered names whose read answered healthy (all of them without a checker), an empty name only while a primary is set, a healthy primary first |
| BackendRegistry.Registry.PrimaryHealthy | internal/backend/backend.go:145-163 | fails exactly when nothing is registered or nothing is eligible; otherwise picks and counts a least-loaded eligible backend as the dispatch protocol does |
| BackendRegistry.Registry.ReleaseBackend | internal/backend/backend.go:165-168 | lowers the named backend's counter |
| BackendRegistry.NonEmptyNamesEligible | internal/backend/backend.go:170-184 | with no empty names, nothing is eligible exactly when there is a checker and it answered degraded for every registered backend |
| BackendRegistry.ChatCompletions | internal/handler/chat.go:23-53 | every counter is as before on every return path; a request is served exactly when some backend is eligible, by the registered backend the balancer chooses among the eligible ones, counted while it is served, and the turn advances as for one selection; otherwise the error names the primary or "default" and the turn stays |
| WatchedSelection.ReadsAreUp | internal/watchdog/watchdog.go:97-106 | the watchdog's answer for a name is whether its trailing failed checks stay below the threshold (at least one) |
| WatchedSelection.PickForChat | internal/backend/backend.go:145-184 | under the watchdog a chat pick is a least-loaded backend that is up, and with non-empty names there is one exactly when a registered backend is up |
| WatchedSelection.PickForSpeech | internal/router/router.go:26-75 | under the watchdog a speech backend is picked exactly when one that is up has the capability and advertises the model, and the one picked does |
| Scoring.MatchesIs | internal/router/router.go:96-103 | a model matches when it is of the kind and its name is the requested one with something, or nothing, after it; exactly, when the names are equal |
| Scoring.ScoreBackend | internal/router/router.go:89-115 | the score is fifty for every model of the kind that starts with the requested name, fifty more for every one equal to it, and ten for the capability |
| Scoring.ScoreCounts | internal/router/router.go:95-104 | the model part of the score is fifty per matching model and fifty more per exact one |
| Scoring.ThresholdMeansMatch | internal/router/router.go:61-65 | a score reaches the threshold exactly when some model of the kind starts with the requested name |
| Scoring.ExactOutranksIff | internal/router/router.go:95-104 | among capable backends an exact match outranks one without exactly when its matches, exact ones counted twice, are more |
| Scoring.ExactOutranksPrefix | cmd/inferencia/main.go:69-76 | an exact match outranks every backend without one that lists at most one model, as the registered ones do, capable or not |
| Scoring.PrefixesCanOutrankExact | internal/router/router.go:95-104 | two prefix matches tie with an exact match and three beat it |
| Scoring.Sink | internal/router/router.go:57-59 | moving one entry down keeps the sorted part sorted and equal scores in order |
| Scoring.SortStable | internal/router/router.go:57-59 | sorts the score list in place, highest first, equal scores in order |
| Scoring.StableSortIsUnique | internal/router/router.go:57-59 | any two stable sorts of a list are equal |
| Scoring.TopTierIsFilter | internal/router/router.go:57-73 | sorting and taking the leading score is filtering by the maximum score, order preserved |
| Router.Registry.Register | internal/router/registry.go:28-33 | stores the entry under its own name and keeps the registry invariant |
| Router.Registry.BackendsByCapability | internal/router/registry.go:74-89 | for every map order, lists exactly the capable backends, each once |
| Router.Registry.AvailableBackends | internal/router/router.go:26-42 | tells whether any backend is capable and lists, each once, exactly the capable ones whose read answered healthy (all of them without a checker) |
| Router.Registry.OnlyHealthy | internal/router/router.go:32-37 | keeps exactly the candidates whose read answered healthy, all of them without a checker |
| Router.Registry.TopTier | internal/router/router.go:46-74 | fails exactly when no candidate advertises the model; otherwise returns the candidates of maximal score in their order |
| Router.Registry.PickBalanced | internal/router/router.go:77-87 | picks by the balancer over the candidates' names and counts the request |
| Router.Registry.SelectBackend | internal/router/router.go:26-75 | declarative: the capability error, the no-healthy error (no capable backend healthy, or none of them with a model of the kind whose name starts with the requested one) and the pick each happen exactly under the stated conditions; the pick is a least-loaded one of those with the most matches, exact ones counted twice |
| Router.Registry.ReleaseBackend | internal/router/router.go:21-24 | lowers the named backend's counter |
| Router.MaximalIsTopScore | internal/router/router.go:67-73 | scanning for the top score yields the backends no candidate outscores |
| Router.Audio | internal/handler/audio.go:31-92 | every counter is as before on every return path; a model with a non-space character is answered for itself and any other as "kokoro": refused under the model's name when no available backend advertises it, and otherwise spoken by the least-loaded backend of the tier the balancer chooses, counted meanwhile, or refused under its name when it cannot speak |
| RateLimiting.RateLimiter.constructor | internal/middleware/ratelimit.go:28-45 | a rate that is not positive becomes one, a burst below one becomes one |
| RateLimiting.RateLimiter.Allow | internal/middleware/ratelimit.go:78-103 | decides on the refilled level and leaves the charged bucket, new keys starting full |
| RateLimiting.RateLimiter.Sweep | internal/middleware/ratelimit.go:117-122 | deletes exactly the buckets unseen for more than 600 seconds, in any order, and changes no other |
| RateLimiting.RateLimiter.Guard | internal/middleware/ratelimit.go:47-76 | keyless requests pass untouched; the headers report the burst and the remaining count, zero on rejection |
| RateLimiterLaws.TokensInRange | internal/middleware/ratelimit.go:80-126 | 0 <= tokens <= burst in every reachable state |
| RateLimiterLaws.DenialInvisible | internal/middleware/ratelimit.go:91-97 | a denied call changes no future level of any key |
| RateLimiterLaws.TickInvisible | internal/middleware/ratelimit.go:116-123 | when ten minutes refill a burst, an eviction tick changes no future level |
| RateLimiterLaws.DroppedEventsAreNoOps | internal/middleware/ratelimit.go:80-126 | dropping any set of denied calls and ticks leaves the verdict of every other call unchanged |
| RateLimiterLaws.EarlyRefillObservable | internal/middleware/ratelimit.go:107-126 | when the burst outlasts ten minutes of refill, a trace exists on which eviction changes a verdict |
| RateLimiterLaws.EvictionInvisibleIff | internal/middleware/ratelimit.go:107-126 | eviction is invisible on every trace if and only if burst <= 600 * rate |
| RateLimiterLaws.DenialKeepsBucket | internal/middleware/ratelimit.go:91-97 | a trace on which dropping one denied call changes a later verdict |
| RateLimiterLaws.DenialsAreNoOpsIff | internal/middleware/ratelimit.go:91-123 | dropping denied calls changes no verdict on any trace if and only if burst <= 600 * rate |
| RateLimiterLaws.RetryAfterHonestIff | internal/middleware/ratelimit.go:61-69 | a rejected key that stays silent for a second or more is admitted on every trace if and only if rate >= 1 |
| RateLimiterLaws.TokensAreWindowMinimum | internal/middleware/ratelimit.go:80-103 | the tokens before a call are the minimum, over the windows opened by the key's calls so far, of burst plus refill less admissions |
| RateLimiterLaws.AdmittedIffNoWindowExceeded | internal/middleware/ratelimit.go:80-103 | a call is admitted exactly when no window ending at it would exceed burst + rate * length |
| RateLimiterLaws.AdmissionBound | internal/middleware/ratelimit.go:80-126 | with eviction at any moments, at most burst + rate * d + floor(d/600) * max(0, burst - 600 * rate) admissions of a key in any d seconds |
| RateLimiterLaws.AdmissionBoundAttained | internal/middleware/ratelimit.go:80-126 | when burst >= 600 * rate, for every number of evictions, with ticks at the worst moments, a trace is admitted as often as the bound allows |
| RateLimiterLaws.EvictionCost | internal/middleware/ratelimit.go:107-126 | the bound is burst + rate * d when ten minutes refill a burst, and never more than a burst larger per ten minutes |
| RateLimiterLaws.GatewayAdmissionBound | cmd/inferencia/main.go:89-100 | two limiters, so the gateway admits a key at most twice that |
| RateLimiterLaws.RemainingIsPromised | internal/middleware/ratelimit.go:99-102 | the count returned with an admission is a number of further calls of the key that are all admitted, at any later times, with any ticks and other calls between |
| RateLimiterLaws.PromiseIsTight | internal/middleware/ratelimit.go:95-102 | with no time passing, the call after those is refused |
| EventStream.ScanDeliversPrefix | internal/backend/ollama.go:118-139 | the scan delivers a prefix of the upstream payloads and nothing after [DONE]; it delivers all of them exactly when every line fits the scanner |
| EventStream.Client.Send | internal/handler/chat.go:91-114 | writes one frame, or the part of it that got out before the failure |
| EventStream.ChatCompletionStream | internal/backend/mlx.go:121-143 | the client receives the printed scan, cut at a failing send; without an error that is every upstream payload up to and including [DONE] |
| EventStreamLaws.ScanDataLine | internal/backend/ollama.go:116-136 | a line of "data: " and a payload, with or without CR at its end, delivers the payload, or ends the scan for [DONE], or stops it when it has 1048576 bytes or more |
| EventStreamLaws.ScanOtherLine | internal/backend/ollama.go:118-122 | a line that does not begin with "data: " delivers nothing |
| EventStreamLaws.ScanLastLine | internal/backend/ollama.go:116-139 | a last line without a line feed is read like one with it, and may fill the buffer when the end was reported with it |
| EventStreamLaws.ScanFrame | internal/backend/ollama.go:120-136 | what scanning past one printed payload yields, for every payload without a line feed |
| EventStreamLaws.RoundTripIff | internal/handler/chat.go:91-114 | scanning a printed list gives it back if and only if no payload has a line feed, ends in CR or overflows, and [DONE] comes only last |
| EventStreamLaws.PrintedInjective | internal/handler/chat.go:99-108 | different payload lists without line feeds print differently |
| EventStreamLaws.RelayTwiceIff | internal/backend/ollama.go:118-139 | relaying a relayed stream reproduces it byte for byte if and only if no payload ends in CR (nor has exactly the scanner's limit) |
| EventStreamClient.FrameIsOneMessage | internal/handler/chat.go:99-108 | a frame with a one-line payload is one message with that data, empty payloads and leading spaces included |
| EventStreamClient.BrokenPayloadShortened | internal/handler/chat.go:108 | a payload with a line end inside reaches a standard client shortened |
| EventStreamClient.ClientSeesPayloadsIff | internal/handler/chat.go:99-113 | a standard client dispatches exactly the payloads, one message each, if and only if none contains CR or LF |
| EventStreamClient.RelayReachesClient | internal/backend/ollama.go:118-139 | end to end, a standard client sees exactly the upstream payloads up to [DONE] if and only if none of them contains CR |
| ApiErrors.Index | internal/apierror/classify.go:90 | the first occurrence of a substring, or none |
| ApiErrors.BlankTrimsToNothing | internal/handler/audio.go:39-51 | trimming leaves nothing exactly of a text made of spaces, the handlers' test for a missing field |
| Basics.SpaceIs | internal/handler/audio.go:39-51 | the characters trimmed are the white space of Unicode |
| ApiErrors.TrimSpaceIff | internal/apierror/classify.go:99 | trimming leaves a given text exactly of that text between two stretches of space |
| ApiErrors.AtoiOfItoa | internal/apierror/classify.go:99-102 | parsing a printed number in range gives the number |
| ApiErrors.AtoiIff | internal/apierror/classify.go:99-102 | what parses is exactly the numerals of the 64-bit integers: printed digits after an optional sign and leading zeros |
| ApiErrors.UpstreamStatusIff | internal/apierror/classify.go:88-104 | the status read is the one the text names: a numeral, perhaps between other white space, after its first "status " and before a colon, a space or the end |
| ApiErrors.TimeoutPhraseIs | internal/apierror/classify.go:61-67 | a timeout text says one of the four phrases, in any case |
| ApiErrors.ConnectionPhraseIs | internal/apierror/classify.go:80-85 | a connection text says one of the five phrases, in any case |
| ApiErrors.OverloadPhraseIs | internal/apierror/classify.go:106-112 | an overload text says one of the four phrases, in any case |
| ApiErrors.ErrorClass | internal/apierror/classify.go:31-59 | every error, and only an error, is answered for the backend passed in, as timeout, overloaded or unavailable, each exactly under its condition on the flags, the phrases and the status named |
| ApiErrors.FirstStatus | internal/apierror/classify.go:90-94 | the printed status is the first "status " in the text |
| ApiErrors.AdapterOperations | internal/backend/ollama.go:53-186 | none of the operations the three adapters print a status for contains "status " |
| ApiErrors.StatusRoundTrip | internal/apierror/classify.go:88-104 | for every operation free of "status ", every status and every body, the printed status is read back |
| ApiErrors.AdapterStatusRoundTrip | internal/backend/mlx.go:54-192 | for each of those operations the printed status is read back, whatever the body |
| ApiErrors.StatusErrorClass | internal/apierror/classify.go:31-59 | the complete classification of an adapter's status error: phrases win over the status, the status over overload phrases |

## Left out

- HTTP transport, JSON coding, contexts, timeouts and server wiring: a backend is its name, and a health check or a completion has an arbitrary result.
- Mutexes, goroutines, tickers and channels: each lock-protected section is one atomic step, and an eviction tick or a finished health check may be any step of a run.
- LoadBalancing.LoadBalancer.Acquire: counters are unbounded integers; a counter of 2^63 requests in flight is not modelled.
- RateLimiting.RateLimiter.Allow: tokens and times are reals, so floating-point rounding is not modelled; the truncation of the remaining count is.
- Scoring.SortStable: the library's stable sort is modelled by the insertion sort it uses for short lists; `StableSortIsUnique` shows that the algorithm does not matter.
- BackendRegistry.ChatCompletions: the completion itself, its JSON answer and the token metrics; the streaming answer is the relay model.
- Router.Audio: the voice and speed defaults, the synthesis call and the audio answer; the length limit counts characters of the modelled string, bytes in the source.
- EventStreamClient.RelayReachesClient: character decoding of the stream, and the reconnection time set by a `retry` field, which no message depends on.
- ApiErrors.ErrorClass: what unwrapping an error finds (a deadline, a network timeout, a connection operation) is three flags of the error value; case folding covers the characters that fold to ASCII, the only ones the phrases can tell apart; texts are valid Unicode.
- The router's route list, which nothing reads, and the embeddings and models handlers, which repeat the chat handler's bracket.
- The readiness endpoint, which writes the health gauge from its own probes: the gauge matches the watchdog right after each of the watchdog's own checks.
- Configuration, keys, metrics, logging, tracing, documentation pages, the speech servers and deployment files: no property that spans several operations.
