# eth-alive watchdog: verified model of its decision logic

eth-alive is a watchdog for an Ethereum node. Every ten seconds it asks a remote
reference node and the local node for their chain head (`eth_blockNumber`, a hex
string). It decides whether the local node is synced, lagging, ahead or down, and
prints that verdict. This project models the three pieces of pure logic in that
program and proves their properties:

- **Block-number decoding** (`BlockNumber`, on top of `ParseInt`). Every leading
  `"0x"` is removed from the `result` string (`trim_start_matches`, case-sensitive).
  The rest is parsed by `u64::from_str_radix(_, 16)`. `ParseInt` models that parser
  for any radix. It accepts one optional `+`, then one or more digits in either letter
  case. It reads left to right and stops at the first invalid digit or at the first
  step that would pass 2^64 - 1. The three failures are the error kinds `Empty`,
  `InvalidDigit` and `PosOverflow`. The partner of the decoder is a lower-case
  encoder (`ParseInt.Encode`) with round-trip lemmas.
- **Health classification** (`Health`). A total, priority-ordered decision over the
  two fetch results and the lag threshold. It returns a five-case `Verdict`:
  `Synced(lag)`, `Lagging(lag)`, `LocalAhead`, `RemoteFailed(error)`,
  `LocalDown(error)`. The lag is typed as a u64, so the verifier checks that
  `remote - local` never underflows. `Watchdog.Poll` joins decoding and
  classification for one pass of the loop.
- **Lag threshold setting** (`Config`). A missing `LAG_THRESHOLD` means `"3"`. The
  value is then parsed as a decimal `u64`, and a parse error is fatal at start-up.

Files: `results.dfy` (Option, Result), `parse_int.dfy`, `block_number.dfy`,
`config.dfy`, `health.dfy`, `watchdog.dfy`.

Behaviour of the code worth noting:
- Only the lower-case `"0x"` is stripped, and it is stripped repeatedly. `"0X10"` is
  rejected and `"0x0x10"` is 16.
- A single leading `+` is accepted after the prefix.
- `LocalAhead` carries no lead, because the code computes none.
- No alerting is done. The code has only a TODO at that point.

## Model

| member | source | states |
|---|---|---|
| `ParseInt.DigitValue` | src/main.rs:127 | `char::to_digit(radix)`: a result is always below the radix; letters count in either case (no contract beyond that; `CaseInsensitive` and `FromStrRadixCorrect` use it) |
| `ParseInt.Accumulate` | src/main.rs:127 | The digit loop of `from_str_radix` never reports `Empty`, and a successful result is at least the starting accumulator |
| `ParseInt.AccumulateFrom` | src/main.rs:127 | After a consumed prefix `p`, the loop succeeds exactly when `p + s` is all digits with value at most 2^64-1, and then returns that positional value; an all-digit input that is too large gives `PosOverflow` |
| `ParseInt.FromStrRadix` | src/main.rs:127 | `u64::from_str_radix`; no contract of its own, its promise is stated by `FromStrRadixCorrect`, `FirstBadDigit` and `OverflowingPrefix` |
| `ParseInt.FromStrRadixCorrect` | src/main.rs:127 | `from_str_radix` succeeds exactly on an optional `+` followed by at least one digit whose value fits in a u64, and returns that value; it is `Empty` exactly on the empty string; a too-large well-formed number is `PosOverflow`, never a wrapped value |
| `ParseInt.Encode` | src/main.rs:125-127 | The encoder used as the decoder's partner yields a non-empty string of digits of the radix, with no upper-case letters |
| `ParseInt.ValueOfEncode` | src/main.rs:125-127 | The positional value of the encoding of `n` is `n` |
| `ParseInt.EncodeRoundTrip` | src/main.rs:127 | Every u64 written in a radix parses back to itself |
| `ParseInt.EncodeOverflow` | src/main.rs:127 | A number above 2^64-1, written out, is a `PosOverflow` error |
| `ParseInt.AccumulateSameDigits` | src/main.rs:127 | Two strings with the same digit values position by position give the same loop result, errors included |
| `ParseInt.CaseInsensitive` | src/main.rs:127 | Upper-casing the input never changes the parse result, value or error |
| `ParseInt.AccumulateSplit` | src/main.rs:127 | Running the digit loop over `p + s` reaches `s` holding the value of the digits already read, as long as that value fits in a u64 |
| `ParseInt.FirstBadDigit` | src/main.rs:127 | A bad character whose preceding digits are valid and still fit in a u64 makes the parse fail with `InvalidDigit` (not `PosOverflow`) |
| `ParseInt.AccumulateOverflow` | src/main.rs:127 | Once the digits read so far pass 2^64-1, the loop stops with `PosOverflow`, whatever follows |
| `ParseInt.OverflowingPrefix` | src/main.rs:127 | If the digits up to some position are all valid and already pass 2^64-1, the parse is `PosOverflow`, even when a bad character comes later |
| `BlockNumber.TrimHexPrefix` | src/main.rs:126 | `trim_start_matches("0x")`; its own contract is only that the result is no longer than the input, and `TrimHexPrefixCorrect` pins it down |
| `BlockNumber.TrimHexPrefixCorrect` | src/main.rs:126 | `trim_start_matches("0x")` leaves the input minus some whole number of leading `"0x"` copies, and the remainder does not start with `"0x"` |
| `BlockNumber.Decode` | src/main.rs:126-127 | The block-number decoder; no contract of its own, its promises are `DecodeRoundTrip`, `DecodeEmpty`, `DecodeSkipsPrefixes` and the lemmas below |
| `BlockNumber.DecodeSkipsPrefixes` | src/main.rs:126-127 | Any number of leading `"0x"` copies leaves the decoded result unchanged |
| `BlockNumber.DecodeOptionalPrefix` | src/main.rs:126-127 | `"0x" + s` decodes exactly like `s` |
| `BlockNumber.DecodeEmpty` | src/main.rs:126-127 | The result is `Empty` exactly for strings made only of `"0x"` copies, `""` included |
| `BlockNumber.DecodeRoundTrip` | src/main.rs:125-127 | `"0x"` followed by the lower-case hex digits of any u64 decodes to it; so do the bare digits |
| `BlockNumber.DecodeUpperRoundTrip` | src/main.rs:125-127 | `"0x"` followed by the upper-case hex digits of any u64 decodes to it |
| `BlockNumber.DecodeOverflow` | src/main.rs:127 | Hex of a number above 2^64-1 is a `PosOverflow` error |
| `BlockNumber.DecodeUpperPrefixRejected` | src/main.rs:126-127 | Anything starting with upper-case `"0X"` is an `InvalidDigit` error |
| `BlockNumber.DecodeSignedRoundTrip` | src/main.rs:126-127 | `"0x+"` followed by the hex of a u64 decodes to it |
| `BlockNumber.DecodeExampleHex` | src/main.rs:125-127 | `"0x10a"` decodes to 266 |
| `BlockNumber.DecodeExampleBare` | src/main.rs:126-127 | `"10a"` decodes to 266 |
| `BlockNumber.DecodeExampleUpperDigits` | src/main.rs:127 | `"0x10A"` decodes to 266 |
| `BlockNumber.DecodeExampleZero` | src/main.rs:126-127 | `"0x0"` decodes to 0 |
| `BlockNumber.DecodeExampleDoublePrefix` | src/main.rs:126 | `"0x0x10"` decodes to 16 |
| `BlockNumber.DecodeExampleNoDigits` | src/main.rs:126-127 | `"0x"` is `Empty` |
| `BlockNumber.DecodeExampleInvalidDigits` | src/main.rs:127 | `"0xZZZ"` is `InvalidDigit` |
| `BlockNumber.DecodeExampleUpperPrefix` | src/main.rs:126-127 | `"0X10"` is `InvalidDigit` |
| `BlockNumber.FetchBlockNumber` | src/main.rs:117-129 | `fetch_block_number` after the network; no contract of its own, stated by `FetchBlockNumberCorrect` and `FetchRoundTrip` |
| `BlockNumber.FetchBlockNumberCorrect` | src/main.rs:117-129 | A fetch yields `n` exactly when the reply arrived and its `result` decodes to `n`; it is a transport error exactly when the reply did not arrive; otherwise it carries the decode error |
| `BlockNumber.FetchRoundTrip` | src/main.rs:123-129 | A reply whose `result` is `"0x"` + the hex of a u64 yields that u64 |
| `Config.LagThreshold` | src/main.rs:25-28 | The `LAG_THRESHOLD` default-then-parse chain; no contract of its own, stated by `LagThresholdDefault`, `LagThresholdPresent` and `LagThresholdRoundTrip` |
| `Config.LagThresholdDefault` | src/main.rs:25-28 | A missing `LAG_THRESHOLD` gives a threshold of 3 |
| `Config.LagThresholdPresent` | src/main.rs:25-28 | A present value is used, never replaced by the default: it is accepted exactly when it is an optional `+` and decimal digits fitting a u64, and the threshold is their value; an empty value is `Empty` |
| `Config.LagThresholdRoundTrip` | src/main.rs:25-28 | Every u64 written in decimal is accepted as that threshold |
| `Config.LagThresholdRejectsText` | src/main.rs:27-28 | `"abc"` is an error, not the default |
| `Config.LagThresholdRejectsHex` | src/main.rs:27-28 | `"0x3"` is an error, because the threshold is decimal |
| `Health.Classify` | src/main.rs:69-94 | A synced or lagging verdict comes with both heights known and `local + lag == remote`; synced means `lag < threshold`, lagging means `lag >= threshold`; local-ahead means both heights known and `remote < local` |
| `Health.ClassifyRemoteFailed` | src/main.rs:85-88 | The verdict is a remote failure exactly when the remote fetch failed, whatever the local result, and it carries the remote error |
| `Health.ClassifyLocalDown` | src/main.rs:89-93 | The verdict is local-down exactly when the remote fetch succeeded and the local one failed, and it carries the local error |
| `Health.ClassifyLocalAhead` | src/main.rs:70-83 | With both heights known, the verdict is local-ahead exactly when local is above remote |
| `Health.ClassifySynced` | src/main.rs:70-75 | Synced exactly when both heights are known, `local <= remote` and `remote - local < threshold` |
| `Health.ClassifyLagging` | src/main.rs:70-79 | Lagging exactly when both heights are known, `local <= remote` and `remote - local >= threshold` |
| `Health.ClassifyAtThreshold` | src/main.rs:71-79 | A lag equal to the threshold is lagging, with that lag |
| `Health.ClassifyZeroThreshold` | src/main.rs:73-79 | With threshold 0 nothing is ever synced |
| `Watchdog.Poll` | src/main.rs:61-94 | One pass of the loop: fetch results into `Classify`; no contract of its own, stated by the `Poll…` lemmas below |
| `Watchdog.PollHexHeights` | src/main.rs:61-84 | Heights delivered as `"0x"` + lower-case hex are classified on their numeric values |
| `Watchdog.PollRemoteUnreachable` | src/main.rs:63-88 | An unreachable remote node gives a remote-failure verdict carrying the transport error, whatever the local reply |
| `Watchdog.PollRemoteUpperPrefix` | src/main.rs:63-88 | A remote result written with `"0X"` gives a remote-failure verdict with `InvalidDigit` |
| `Watchdog.PollLocalOverflow` | src/main.rs:61-93 | A local result above 2^64-1 makes the local node count as down, with `PosOverflow` |
| `Watchdog.PollScenarioLagging` | src/main.rs:61-79 | Remote `"0x64"`, local `"0x60"`, threshold 3: lagging by 4 |
| `Watchdog.PollScenarioSynced` | src/main.rs:61-75 | Remote and local `"0x64"`, threshold 3: synced with lag 0 |
| `Watchdog.PollScenarioLocalAhead` | src/main.rs:61-83 | Remote `"0x5a"`, local `"0x64"`: local ahead |

## Left out

- The JSON-RPC transport (src/main.rs:110-123): building the request, `send()` and
  deserialising the reply are network I/O through reqwest and serde. Their outcome is
  an input to `FetchBlockNumber`, reduced to its two causes: `SendFailed` (the `?`
  on `send()`) and `BodyUnreadable` (the `?` on `resp.json()`). The `reqwest::Error`
  inside the source's boxed error already tells these two apart, in its kind and in
  its message; the model keeps that distinction but not the message text.
- The tokio loop, its awaits and the 10-second sleep (src/main.rs:61-66, 95). This is
  scheduling, and no state is carried between passes. `Watchdog.Poll` is one pass.
- Loading the environment and `.env`, `get_env` and `process::exit`
  (src/main.rs:21-36, 101-106). These are process side effects. `LagThreshold` takes
  the result of `env::var` as an `Option`: `None` stands for both a missing variable
  and a non-Unicode one, which the source treats alike. The `Err` it returns stands
  for the panic of `expect`.
- All console output (src/main.rs:49-59, 75-91). The `Verdict` says which branch
  printed, with the lag or the error it printed; the two heights that the synced,
  lagging and local-ahead lines also print are `Classify`'s inputs.
- Alert cooldown, webhook dispatch and alert state. The source has no alerting, only a
  TODO at src/main.rs:92.
- The body of Rust's `u64::from_str_radix` lives in the Rust standard library, which
  is not part of this model. `ParseInt` follows its documented behaviour. It works on
  characters rather than UTF-8 bytes. The two agree, because any non-ASCII character
  is an invalid digit at the same position either way.
