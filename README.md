# AlphaESS poller: a Dafny model of the bring-up and signing logic

The firmware in `src/AlphaESS.c` runs on a microcontroller with a WIZnet
Ethernet chip. It leases an address over DHCP, resolves
`openapi.alphaess.com` once, fetches the time over SNTP, and then sends a
single signed HTTP GET for the latest power reading. The request is signed
with the lowercase hex SHA-512 of `APP_ID ‖ APP_SECRET ‖ unix-timestamp`.
A 1 ms timer callback keeps a millisecond counter and drives the DHCP/DNS
library timers.

This project models the decision logic that `main` puts on top of those
libraries. Each library result is an input, and each loop of `main` is a
method over a sequence of such results. Each method is proved equal to a
recursive specification function, and lemmas state what the source promises
about that function:

- `dhcp.dfy`: the DHCP lease loop with `dhcp_retry` and `g_dhcp_get_ip_flag`.
- `sntp.dfy`: the SNTP do-while loop and its `millis()`-based condition.
- `bytes.dfy`, `hex.dfy`, `signer.dfy`: the signing step. This covers the
  1900-to-1970 epoch conversion (the prime epoch of section 6 of RFC 5905),
  the `%llu` rendering, and the `sprintf` of the pre-image into the 129-byte
  `secrets` array. It also covers the in-place `%02x` loop over the 64-byte
  digest (FIPS 180-4 section 6.4). SHA-512 is a function parameter that must
  return 64 bytes.
- `http.dfy`: the HTTP loop with its `send_success` latch.
- `timer.dfy`: `repeating_timer_callback` and `millis()`, as a class whose
  field is `g_msec_cnt`.
- `firmware.dfy`: the order of the phases. A failure spins forever, and the
  model shows that as a terminal `HaltedIn` outcome. A loop whose given
  inputs run out is `WaitingIn`.

## The SNTP timeout does not measure ten seconds

`millis()` returns `g_msec_cnt`. That counter is reset to 0 when it reaches
999, so `millis()` never returns more than 998 (`Timer.MsecTimer.Millis`).
The SNTP loop condition `(millis() - start_ms) < RECV_TIMEOUT`, with
`RECV_TIMEOUT` = 10000, therefore depends on how the subtraction is typed:

- With a 64-bit `time_t` the difference is signed and lies between -998 and
  998. The condition never fails, so the phase polls until `SNTP_run`
  returns 1 and can never halt on a timeout (`Sntp.Sntp64NeverTimesOut`).
- With a 32-bit `time_t` the subtraction is unsigned. The condition can
  fail only on a reading taken after the counter wrapped and while it is
  still below `start_ms` (`Sntp.Sntp32FailsOnlyOnWrap`). When `start_ms` is
  0 no reading is below it, so the condition never fails
  (`Sntp.Sntp32NeverFailsFromZero`). When the readings are taken is an
  input, so no bound on the time to a halt is claimed.

The model keeps this behaviour as written. The width of `time_t` is a
parameter (`Sntp.TimeT`), and the model makes no claim that a ten-second
timeout exists.

## Behaviour of the code worth knowing

- The comment on `RECV_TIMEOUT` (src/AlphaESS.c:52) says 10 seconds. The
  SNTP loop does not measure that (see above).
- The DHCP retry message is printed only for retry counts 1 to 5. The
  sixth failure prints "DHCP failed" instead (`Dhcp.LeaseDhcp`).
- The DHCP and DNS time handlers run every 999 callbacks, because the
  threshold is `1000 - 1` (`Timer.MsecTimer.Tick`).
- The HTTP loop reads only `httpc_isSockOpen`, `httpc_isConnected` and
  `httpc_isReceived`, so the model observes those three values.
- `DNS_RETRY_COUNT` and `dns_retry` are declared but never used. DNS is
  attempted exactly once (`Firmware.PhaseGates`).
- `src/alphaESS.h` defines `RECV_TIMEOUT` as 10000000. The model uses the
  value in `src/AlphaESS.c`, which is 10000.

## Model

| member | source | states |
|---|---|---|
| `Dhcp.LeaseDhcp` | src/AlphaESS.c:154-190 | The lease loop ends as `DhcpRun` says. `g_dhcp_get_ip_flag` is set exactly when it leased. The retry numbers printed are 1..n, with n the number of failures capped at 5. |
| `Dhcp.DhcpRunMeetsSpec` | src/AlphaESS.c:154-190 | The loop leases at the first `IpLeased` seen before the sixth failure, with `dhcp_retry` equal to the failures seen so far. It halts exactly at the sixth failure if no lease came before it. Otherwise it is still waiting, with at most five failures. |
| `Dhcp.DhcpOutcomeUnique` | src/AlphaESS.c:154-190 | At most one outcome meets that description, so it characterises the loop completely. |
| `Dhcp.DhcpHaltsAtSixthFailure` | src/AlphaESS.c:168-187 | The loop halts at result i if and only if result i is the sixth `DHCP_FAILED` and no lease came before it. It never halts earlier. |
| `Dhcp.DhcpLeasesAtFirstLease` | src/AlphaESS.c:156-167 | The loop leases at result i if and only if result i is the first `DHCP_IP_LEASED` and at most five failures came before it. |
| `Sntp.SyncTime` | src/AlphaESS.c:211-228 | The do-while loop ends as `SntpRun` says. Its final `retval` is 1 on success. On a halt, `retval` is the last value polled, which is not 1. |
| `Sntp.SntpRunOutcome` | src/AlphaESS.c:212-228 | Polling stops on the first `SNTP_run` result of 1. A halt happens only where the loop condition failed after a result other than 1. Every earlier poll returned something other than 1 while the condition still held. |
| `Sntp.Sntp64NeverTimesOut` | src/AlphaESS.c:212-221 | With a 64-bit `time_t` and counter readings in 0..998, the SNTP phase never halts on its timeout. |
| `Sntp.Sntp32FailsOnlyOnWrap` | src/AlphaESS.c:221 | With a 32-bit `time_t`, the loop condition fails if and only if the reading is below the start reading. So a halt happens only on a reading taken after a counter wrap and below `start_ms`. |
| `Sntp.Sntp32NeverFailsFromZero` | src/AlphaESS.c:212-221 | With a 32-bit `time_t` and `start_ms` equal to 0, the SNTP phase never halts on its condition either. |
| `Bytes.Decimal` | src/AlphaESS.c:248-249 | `%llu` renders only digits, with no sign. The first digit is '0' only for zero, so there are no leading zeros. |
| `Bytes.DecimalRoundTrip` | src/AlphaESS.c:249 | Reading the decimal rendering back gives the number. |
| `Bytes.Uint64DecimalLength` | src/AlphaESS.c:248-249 | Any 64-bit unsigned value renders in at most 20 digits. |
| `Signer.UnixSecondsAfter1970` | src/AlphaESS.c:247 | For NTP times from 1970 on, the Unix timestamp equals the NTP seconds minus 2208988800. |
| `Signer.UnixSecondsRoundTrip` | src/AlphaESS.c:247 | The unsigned 64-bit conversion is undone by adding the offset back, even across the wrap. |
| `Signer.TimestampFits` | src/AlphaESS.c:248-249 | The timestamp text and its terminator fit the 32-byte `timeStamp_buf`. The text holds no NUL. |
| `Signer.FormatPreimage` | src/AlphaESS.c:251-253 | `sprintf` returns the sum of the three lengths. It writes `APP_ID ‖ APP_SECRET ‖ timestamp` with no separators, followed by a NUL. The rest of `secrets` is unchanged. The precondition is that the sum is at most 128. |
| `Signer.PreimageDeterminesCredentials` | src/AlphaESS.c:253 | For credentials of the same lengths and the same timestamp, equal pre-images mean equal `APP_ID` and equal `APP_SECRET`. So a change of a single character changes the pre-image. |
| `Signer.PreimageDeterminesTimestamp` | src/AlphaESS.c:251-253 | With the credentials fixed, equal pre-images mean equal timestamps and equal NTP times. |
| `Signer.HexEncodeInPlace` | src/AlphaESS.c:255-257 | After the 64 `%02x` writes, `secrets` holds the hex rendering of the digest followed by a NUL, all 129 bytes. |
| `Signer.SignRequest` | src/AlphaESS.c:247-257 | The `timeStamp` header is the decimal Unix time. The `sign` header is the 128-character hex rendering of SHA-512 over `APP_ID ‖ APP_SECRET ‖ timeStamp`. |
| `Signer.SignatureShape` | src/AlphaESS.c:251-257 | The signature is 128 lowercase hex characters with no NUL. Characters 2i and 2i+1 are the high and low nibble of digest byte i. Decoding the signature gives the digest back. |
| `HexCodec.HexAt` | src/AlphaESS.c:255-256 | In the hex rendering, character 2i is the high nibble of byte i and character 2i+1 is its low nibble. |
| `HexCodec.HexIsLowercase` | src/AlphaESS.c:256 | The rendering uses only the characters '0'-'9' and 'a'-'f'. |
| `HexCodec.UnhexHex` | src/AlphaESS.c:255-257 | Decoding the hex rendering gives back the bytes. |
| `HexCodec.HexDigit` | src/AlphaESS.c:256 | Each nibble becomes a lowercase hex character that decodes to that nibble. |
| `Http.PollHttp` | src/AlphaESS.c:235-277 | The HTTP loop, including the signing it does on send, runs as `HttpRun` says. The header it sends is built from the credentials, the SNTP time and the digest. |
| `Http.HttpSendsAtMostOnce` | src/AlphaESS.c:235-264 | The `send_success` latch lets the signed header set go out at most once. It goes out only in a connected iteration, and it is the header built for the request. |
| `Http.HttpExitsAfterSend` | src/AlphaESS.c:236-275 | The loop exits if and only if some iteration is connected with bytes received, and it exits at the first such iteration. By then the request has been sent. That iteration alone drains, and it asks for exactly the received count. Without an exit, every observation is consumed. |
| `Timer.TickPeriodic` | src/AlphaESS.c:328-339 | After n callbacks the counter is n mod 999, and the handlers have run n div 999 times. |
| `Timer.MsecTimer.constructor` | src/AlphaESS.c:107 | The counter starts at 0 and no handler has run. |
| `Timer.MsecTimer.Tick` | src/AlphaESS.c:328-339 | After each callback the counter lies in 0..998. `DHCP_time_handler` and `DNS_time_handler` run exactly on every 999th callback. The 16-bit increment never wraps. |
| `Timer.MsecTimer.Millis` | src/AlphaESS.c:341-344 | `millis()` never exceeds 998. It is the callback count modulo 999, not elapsed time. |
| `Firmware.RunFirmware` | src/AlphaESS.c:153-277 | `main` runs the phases as `RunSpec` says. Phases start in the order DHCP, DNS, SNTP, HTTP, each at most once. The run ends in the last phase started, so nothing starts after a halt. |
| `Firmware.PhaseGates` | src/AlphaESS.c:154-233 | DNS is attempted, once, exactly when DHCP leased. SNTP starts exactly when DNS returned a positive value. HTTP starts exactly when SNTP returned 1. The run halts in DHCP exactly when the DHCP loop halted. |
| `Firmware.DrainedAfterSingleSend` | src/AlphaESS.c:235-275 | A drained response means the signed header went out exactly once. The count drained is the positive count the client reported. |

## Left out

- Chip and network bring-up (`wizchip_*`, `DHCP_init`, `DNS_init`, `SNTP_init`, `httpc_init`): these are library calls with no decision logic.
- The protocol engines `DHCP_run`, `DNS_run`, `SNTP_run`, `httpc_connection_handler`, `httpc_connect`, `httpc_send_header` and `httpc_recv`: these are external libraries. Their results are inputs, and the number of bytes `httpc_recv` actually returns is not modelled.
- `changedatetime_to_seconds`: this is a library call. Its result when the header set is built is the input `ntpAtSend`.
- SHA-512 (mbedtls): this is an external library, so it is a parameter that returns 64 bytes. Because the hash is uninterpreted, changes are proved to change the pre-image, not the signature. This holds for a change of timestamp, and for a change of credentials of the same lengths. Credentials that differ only in where the `APP_ID`/`APP_SECRET` boundary falls give the same pre-image.
- `wizchip_dhcp_assign` and `wizchip_dhcp_conflict`: they only copy the leased addresses into the network configuration, or spin. The network configuration is not modelled.
- Console output: `printf` and `print_network_information` are not modelled. The exceptions are the DHCP retry numbers and the length passed to `httpc_recv`, which are modelled as results.
- The layout of the custom header buffer `g_http_h_buf`: the model records the three header values sent, not their bytes.
- Size checks on the 2048-byte receive buffer: the source makes none, so the model records the requested count as reported.
- The timer callback runs from an interrupt. The model calls `Tick` sequentially, and the SNTP loop's `millis()` readings are inputs whose range 0..998 is a lemma hypothesis.
- Infinite spins and the final idle loop: these are the terminal outcomes `HaltedIn` and `ResponseDrained`, not non-termination.
- Configuration data: the MAC address, the static addresses, the SNTP server, `TIMEZONE`, the host, the URI and port 80.
- The `uint8_t` counter `dhcp_retry` is modelled as a natural number. It never exceeds 6, so it never wraps.
