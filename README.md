# axelmon liveness checks in Dafny

This project models the two verdict engines of the axelmon validator monitor
(`app` package) and proves properties of them.

- **Heartbeat check** (`app/heartbeats.go`). It has three parts:
  - the window arithmetic that finds the start of the latest complete
    50-block window;
  - the bounded block search that looks for the broadcaster's heartbeat,
    i.e. a `RefundMsgRequest` that wraps a `HeartBeatRequest`;
  - the indexer-based check that counts stale or unparsable heartbeat
    entries and publishes a status.
- **Maintainer check** (`app/maintainers.go`). It builds a chain→bool map of
  the validator's membership in each chain's maintainer set. Excepted chains
  count as passing. The map and its conjunction are published.

Client calls and foreign code become function-typed fields of a context
value: `GetTxs`, the protobuf decoder, `AccAddress.String` and
`GetChainMaintainers`. The client calls and the decoder return a `Result`
(a value or an error). `AccAddress.String` returns a plain string. Values that the source gets
back from a call made before the modelled logic are method inputs. These are
the latest height, the decoded indexer response and the chain list, each as a
`Result`. The clock is the parameter `now`.

The state the checks write is modelled as two classes:
- `Server.GlobalState`, for `server.GlobalState`;
- `Metrics.Registry`, for the Prometheus counters and gauge, kept as integers.

Two methods write this state, and each states its whole new state in terms
of a specification function:
- `Heartbeats.CheckHeartbeats`, through `Heartbeats.MissCount`;
- `Maintainers.CheckMaintainers`, through `Maintainers.AuditChains`.

`Heartbeats.FindHeartbeat` writes no state. `Heartbeats.Search` specifies its
return values, and `Heartbeats.Probes` the heights it fetches.

The lemmas prove what these functions promise.

Files:
- `wrappers.dfy`: `Option`, `Result`, `Error`.
- `addresses.dfy`: byte addresses.
- `decimal.dfy`: the `%d` text of a count and its parser.
- `server.dfy`, `metrics.dfy`: the published state.
- `heartbeats.dfy`, `maintainers.dfy`: one module per source file.

Three facts about the code shape the model:
- `findHeartbeat` checks one window. A `GetTxs` failure returns `(true, err)`
  at once.
- The indexer check counts response entries, not windows.
- The window start is `height - height%50`, or `height - 50` when the height
  is aligned.

## Model

| member | source | states |
|---|---|---|
| Heartbeats.GoRem | app/heartbeats.go:146-147 | Go's remainder: the dividend minus the divisor times the quotient truncated toward zero; in `[0, b)` for a non-negative dividend and in `(-b, 0]` for a negative one |
| Heartbeats.WindowStart | app/heartbeats.go:145-150 | the result is a multiple of 50, and for a height ≥ 0 it lies in `[height-50, height)` |
| Heartbeats.WindowStartIsLatestBoundary | app/heartbeats.go:145-150 | every multiple of 50 strictly below the height is ≤ the result, so the result is the latest complete window's start |
| Heartbeats.FindHeartBeatHeight | app/heartbeats.go:140-153 | a height-lookup error is returned unchanged; otherwise the result is Ok, and for a height ≥ 0 it is an aligned height in `[height-50, height)` |
| Heartbeats.ClassifyMessageDispatch | app/heartbeats.go:110-123 | a non-refund type URL is skipped whatever the decoder does; Fail exactly when a refund payload fails to decode, carrying that error; Hit exactly when it decodes to a heartbeat claim |
| Heartbeats.NonHeartbeatRefundsAreSkipped | app/heartbeats.go:117-123 | a decoded refund with a foreign sender is skipped whatever it wraps; one wrapping anything but `HeartBeatRequest` is skipped |
| Heartbeats.FallbackSenderAccepted | app/heartbeats.go:117-121 | a heartbeat sent by the hard-coded relayer address is a hit even when it is not the broadcaster |
| Heartbeats.TxVerdictIsFirstDecisive | app/heartbeats.go:109-125 | a message list is skipped iff every message is; otherwise it decides as its first non-skipped message, which exists |
| Heartbeats.BlockVerdictFlattens | app/heartbeats.go:108-126 | scanning transaction by transaction decides as scanning all messages of the block in order |
| Heartbeats.BlockHitIff | app/heartbeats.go:108-121 | a block is a heartbeat block iff, in scan order, some message is the heartbeat and every message before it is skipped (none failed to decode) |
| Heartbeats.ScanTx | app/heartbeats.go:109-125 | the message loop returns the list's verdict |
| Heartbeats.ScanBlock | app/heartbeats.go:108-126 | the transaction loop returns the block's verdict |
| Heartbeats.FindHeartbeat | app/heartbeats.go:97-131 | `(found, err)` equals the specified search outcome, and the heights passed to `GetTxs` are exactly the specified probes |
| Heartbeats.ProbesAreConsecutive | app/heartbeats.go:97-127 | the fetched heights are `start, start+1, …` and there are never more than `tryCnt` of them |
| Heartbeats.NotFoundIffExhausted | app/heartbeats.go:97-131 | `(false, nil)` iff every one of the `tryCnt` heights was fetched and quiet; then exactly those `tryCnt` heights were fetched |
| Heartbeats.FoundIffHeartbeat | app/heartbeats.go:108-121 | `(true, nil)` iff the first deciding height holds a heartbeat; no height after it is fetched |
| Heartbeats.FetchErrorAborts | app/heartbeats.go:100-104 | `(true, err)` iff the first deciding height's fetch failed with `err`; it is the last height fetched |
| Heartbeats.DecodeErrorAborts | app/heartbeats.go:110-115 | `(false, err)` iff the first deciding height's block failed to decode a refund request with `err` |
| Heartbeats.MissCountCountsMisses | app/heartbeats.go:58-74 | the miss count equals the number of entries that are unparsable or strictly more than 5 minutes old, so it is at most the number of entries |
| Heartbeats.MissCountZeroIff | app/heartbeats.go:58-74 | the miss count is zero iff no entry is missed |
| Heartbeats.FiveMinutesOldIsNotMissed | app/heartbeats.go:70-73 | an entry exactly five minutes old is not a miss |
| Heartbeats.MissedRoundTrip | app/heartbeats.go:76 | the stored "missed / checked" text parses back to both counts |
| Heartbeats.CheckHeartbeats | app/heartbeats.go:39-88 | a fetch or decode error changes nothing; otherwise it stores the missed text and status `missCnt < MissCnt`, and adds `missCnt` and `len - missCnt` to the two counters |
| Decimal.NatToStringRoundTrip | app/heartbeats.go:76 | parsing the `%d` text of a count gives the count back |
| Decimal.NatToStringInjective | app/heartbeats.go:76 | distinct counts are written as distinct texts |
| Maintainers.ToLower | app/maintainers.go:32 | the lower-cased name has the same length; each ASCII upper-case letter becomes the lower-case letter at the same alphabet position, and every other character is kept in place |
| Maintainers.ToLowerIdempotent | app/maintainers.go:32 | lower-casing an already lower-cased name changes nothing |
| Maintainers.AuditKeys | app/maintainers.go:28-50 | keys always come from the listed chains; without an error every listed chain has an entry |
| Maintainers.AuditKeysBeforeError | app/maintainers.go:29-40 | when the first failing query is at position i, only chains before position i have entries |
| Maintainers.AuditValues | app/maintainers.go:32-50 | an entry is true iff the chain is excepted (by lower-cased name) or its maintainers include the consensus address |
| Maintainers.AuditGauges | app/maintainers.go:52-58 | a gauge is set only for non-excepted chains, every such entry has one, and it is 1 iff the entry is true and 0 otherwise |
| Maintainers.AuditQueries | app/maintainers.go:32-37 | an excepted chain is never queried; without an error the queries are exactly the non-excepted chains in order |
| Maintainers.AuditErrors | app/maintainers.go:37-40 | the loop fails iff some non-excepted chain's query fails; the error is the first such chain's, and that chain is the last one queried |
| Maintainers.AuditStopsAtError | app/maintainers.go:37-40 | once a query has failed, later chains change nothing |
| Maintainers.AuditStatus | app/maintainers.go:61-68 | for a completed loop the conjunction is true iff every listed chain is excepted or maintained; an empty list gives true |
| Maintainers.AuditExample | app/maintainers.go:28-68 | with chains A, B, C, C excepted and the validator listed only by A, the map is {A: true, B: false, C: true}, only A and B are queried, and the status is false |
| Maintainers.FindMaintainer | app/maintainers.go:41-46 | the maintainer loop reports whether the consensus address is listed |
| Maintainers.Conjunction | app/maintainers.go:61-68 | the loop over the map in any key order yields the AND of all values |
| Maintainers.CheckMaintainers | app/maintainers.go:23-84 | a chain-list error changes nothing; a maintainer-query error returns that error, leaves the published map and status untouched, and keeps the gauges already set; otherwise it publishes the map and its conjunction; the chains it passes to `GetChainMaintainers` are exactly the specified queries, none after a chain-list error, so by `AuditQueries` an excepted chain is never queried |

## Left out

- HTTP request, body read and JSON decoding in `checkHeartbeats` (app/heartbeats.go:35-55) are I/O. The decoded response, or the error, is the input.
- The RPC and gRPC client setup, connection and teardown (app/heartbeats.go:135-139, app/maintainers.go:16-21) are network plumbing. The latest height and the chain list come in as `Result` values.
- FindHeartbeat: the broadcaster account is given. The `wallet.NewWallet` call and its `(false, err)` failure path (app/heartbeats.go:92-95) are foreign code and are not modelled.
- The decoder is assumed to always return an inner message. In Go, `InnerMessage` may be a nil pointer, and reading its `TypeUrl` for a refund from a matching sender (app/heartbeats.go:118) would then panic. That panic is not modelled.
- Protobuf decoding is an abstract function returning `Result`, so its internals are not modelled. `AccAddress.Equals` is byte equality and `AccAddress.String` is an abstract rendering.
- `time.Parse(time.RFC3339, …)` is an `Option` of nanoseconds per entry, and `time.Since` is `now` minus that value. Monotonic clock readings and `Duration` saturation are not modelled.
- ToLower: it lower-cases ASCII letters only. Go's `strings.ToLower` also maps other Unicode letters, and that is not modelled.
- The chain loop treats `GetChainMaintainers` as a function of the chain name, so a chain listed twice gets the same answer both times. The step itself keeps the source's rule: an entry that is already true stays true.
- Integer widths are not modelled: `int64` heights, `heartbeatHeight++` overflow and Go `int` counts are unbounded here. Prometheus counters and the gauge are integers, not `float64`.
- `c.alert`, `log.Info` and the log text built from the result map are side effects, so no alert or log output is modelled.
- The `Status` field of the indexer response is never read by the source and is not modelled.
- Concurrent access to `server.GlobalState` and `ctx` cancellation are not modelled, because the checks run sequentially.
