# UDP price server: per-client rate limiting

A model of the request handling of a small UDP server. Each datagram carries
the name of a computer component; the server answers with its price. It keeps
two process-wide maps keyed by the client's endpoint (IP address and port): the
client's last activity time and its request count. A client that has made ten
admitted requests is answered with the fixed text "Request limit exceeded. Try
again later." instead of a price.

The model has three modules:

- `Catalog` (`catalog.dfy`): `GetPrice`, the total lookup from request text to
  price text, specified against a table of the three known components and one
  default answer.
- `RateLimiter` (`rate_limiter.dfy`): the two maps as a `State` value, one
  request as the function `Step`, a run of requests as `Replay`, and the lemmas
  about them: which requests are admitted, what the counts become, what stays
  unchanged, and the invariant every reachable state keeps.
- `Server` (`server.dfy`): the class `Server` holding the two maps as fields.
  `HandleRequest` is the loop body, written as the source writes it: it
  assigns the activity time, creates or resets the count, returns early on
  refusal, and otherwise looks up the price and increments the count. It is
  proved to produce exactly the state and reply of `Step`. `Serve` is the
  receive loop over a finite list of datagrams, proved equal to `Replay`.

Time is an integer number of 100 ns ticks, so one hour is 36 000 000 000 ticks,
and both clock readings are parameters. The handler reads the clock twice:
once to store the activity time (line 29) and once to compare against the
stored time (line 34). The model keeps both readings, `touchedAt` and
`checkedAt`. The stored time is always the first reading. So the count is
reset only when the two readings of one request lie more than an hour apart.
With one reading the reset never happens (`SingleReadingNeverResets`), and a
client that reaches ten admitted requests is refused for as long as the
process runs (`LimitedStaysLimited`). The comment at line 36 ("Reset count if
the period has passed") suggests that a request arriving after more than an
hour of silence starts a new window with count 1. The code does not do that: it
compares against the activity time it has just overwritten. The model follows the code, and
`IdleHourDoesNotReset` shows that the late request in that scenario is refused.

Counts never overflow the source's 32-bit `int`. Every reachable count lies
between 1 and 10 (`ReachableIsWellFormed`), so the model uses unbounded
integers without wrap-around.

## Model

| member | source | states |
|---|---|---|
| `Catalog.GetPrice` | UDP_server/Program.cs:60-69 | total lookup: a known component maps to its table price, every other string to "Unknown component"; the answer is always one of those four strings |
| `Catalog.KnownAnswers` | UDP_server/Program.cs:62-68 | "processor" gives "$200", "memory" "$100", "harddisk" "$80"; "gpu" and the empty string give "Unknown component" |
| `RateLimiter.Step` | UDP_server/Program.cs:28-52 | one request: the activity time becomes the first clock reading whatever happens; count keys gain only the sender; other clients' counts do not change; a new client is admitted with count 1; a known client whose readings are more than an hour apart is admitted with count 1; a known client at 10 or more gets the fixed refusal and no count changes; a known client under 10 is answered from the catalog and its count rises by exactly 1 |
| `RateLimiter.Replay` | UDP_server/Program.cs:22-57 | a run of requests handled in arrival order yields exactly one reply per request |
| `RateLimiter.RefusedIff` | UDP_server/Program.cs:32-51 | the reply is the refusal text exactly when the sender is known, its readings are at most an hour apart and its count is at least 10; an admitted reply never equals the refusal text |
| `RateLimiter.SingleReadingNeverResets` | UDP_server/Program.cs:29-38 | with one clock reading a known client is refused exactly when its count is at least 10; otherwise its count rises by 1 and is never reset |
| `RateLimiter.StepKeepsWellFormed` | UDP_server/Program.cs:29-52 | one request keeps both maps on the same key set and every count within 1..10 |
| `RateLimiter.ReplayKeepsWellFormed` | UDP_server/Program.cs:22-57 | any run of requests keeps both maps on the same key set and every count within 1..10 |
| `RateLimiter.ReachableIsWellFormed` | UDP_server/Program.cs:11-14 | from empty maps, after any run of requests, the maps have equal key sets and counts stay within 1..10 |
| `RateLimiter.OthersUntouched` | UDP_server/Program.cs:29-52 | requests from other clients leave a client's presence and values in both maps unchanged |
| `RateLimiter.Burst` | UDP_server/Program.cs:32-52 | for consecutive requests from one client with no reset (a first request's readings are unconstrained, since it never compares times), the i-th is answered from the catalog exactly when its starting count plus i is below 10, otherwise refused; the count ends capped at 10 |
| `RateLimiter.NewClientBurst` | UDP_server/Program.cs:13-52 | from no entry and with no reset after the first request, the n-th consecutive request is admitted exactly when n is at most 10, is answered with its price, and the count ends at min(n, 10) |
| `RateLimiter.LimitedStaysLimited` | UDP_server/Program.cs:29-42 | a client at 10 or more stays at that count and every request it sends is refused, whatever other clients send and whatever their clock readings, while none of its own requests takes the reset branch |
| `RateLimiter.IdleHourDoesNotReset` | UDP_server/Program.cs:29-42 | ten "processor" requests get "$200", the eleventh is refused, and a "memory" request 61 minutes later with one clock reading is refused too, with the count left at 10 |
| `Server.Server.constructor` | UDP_server/Program.cs:11-12 | the server starts with both maps empty, a well-formed state |
| `Server.Server.HandleRequest` | UDP_server/Program.cs:28-52 | the in-place loop body leaves exactly the maps and reply of `Step`, stores the activity time, and keeps the invariant |
| `Server.Server.Serve` | UDP_server/Program.cs:22-57 | handling a finite list of datagrams in order leaves the maps and replies of `Replay` and keeps the invariant |

## Left out

- Socket setup, `ReceiveAsync`, `SendAsync` and the endless loop (lines 19-24, 41, 56) are network I/O. `Serve` handles a finite list and returns the replies instead of sending them. The source loop has no exception handling, so a failing `ReceiveAsync` or `SendAsync` ends `Main` and the server; `Serve` always reaches the end of its list.
- ASCII encoding and decoding of payloads (lines 26, 41, 55) is a library call. Payloads and replies are strings.
- `DateTime.Now` is replaced by the two clock readings passed in. No order between them is assumed, since the wall clock can be set back.
- The thread safety of `ConcurrentDictionary` is not modelled. The source handles one datagram at a time, so the maps are ordinary sequential maps.
- Inactivity eviction is not modelled. `InactivityTimeout` (line 15) is declared, and kept as a constant, but no code reads it and no sweeper exists.
- The console message at startup (line 20) is not modelled.
