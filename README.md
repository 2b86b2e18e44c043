# ESP32-C3 Wi-Fi and TLS client: the two pieces with logic of their own

The firmware brings up Wi-Fi on an ESP32-C3, waits for a DHCP address, and
makes one TLS request to a web server. Almost all of that is calls into the
Wi-Fi driver, the embassy-net network stack and the embedded-tls library.
Two parts of `src/main.rs` have logic of their own, and this project models
and verifies both.

- **`SimpleRng`** (`simple_rng.dfy`, module `Rng`, built on `words.dfy`,
  module `Words`). This is the counter-based stand-in for a random-number
  generator that the firmware gives the TLS handshake while debugging. It is
  a class with one `u32` counter.
  - `NextU32` bumps the counter with wrap-around and returns it.
  - `NextU64` joins two draws, the first in the upper half.
  - `FillBytes` fills an `array<u8>` in place, one draw per 4-byte chunk. It
    uses each draw's little-endian bytes and gives a short last chunk only
    the leading bytes.
  - `TryFillBytes` does the same fill and always returns `Ok`.

  Each method is proved against specification functions: `Successor`,
  `NextU64Value`, `FillStream`, `ChunkCount`. `NextU32s` makes `k` calls of
  `NextU32` in a row and is proved to return `Draws`. Lemmas give the
  closed forms. The `j`-th draw from counter `c` is `(c + j + 1) mod 2^32`.
  Byte `j` of a fill is byte `j mod 4` of word `(c + j/4 + 1) mod 2^32`.
  In the model, `u8`/`u32`/`u64` are bounded integers and wrap-around is
  written out as `mod 2^32`. `to_ne_bytes` is taken as little-endian
  because the target (RISC-V) is little-endian.
- **The bounded-retry Wi-Fi association loop** (`association.dfy`, module
  `Association`), with `CONNECT_ATTEMPTS = 10` and `RETRY_DELAY_MS = 5000`.
  The method `ConnectWithRetry` keeps the source's shape: a `while true`
  loop with `break` on success and an early `return` on giving up. The
  outcomes of the controller's `connect()` calls are its input. Each outcome
  is a failure, or a success together with what the following
  `is_connected()` query reported. The method returns:
  - whether the device associated;
  - the number of attempts;
  - the number of retry delays;
  - a log with one entry per attempt, holding its number and how it ended.

When the association loop gives up, the firmware prints a message and
returns from `main` (src/main.rs:174-179); the model returns
`connected == false`. `attempts` is incremented at the top of every pass,
before the connect (src/main.rs:157), and the model does the same.

## Model

| member | source | states |
|---|---|---|
| `Words.WrappingAdd` | src/main.rs:59 | `wrapping_add` on u32: the exact sum when it is at most 2^32-1, otherwise the sum less 2^32 |
| `Words.ToLeBytes` | src/main.rs:72 | the little-endian bytes of a u32 are four bytes that read back (least significant first) to the value |
| `Words.LeBytesRoundTrip` | src/main.rs:72 | the reverse round trip: any four bytes are exactly the little-endian bytes of the value they encode |
| `Words.Join64` | src/main.rs:66 | upper shifted left by 32 and or-ed with lower is a u64 whose upper 32 bits are `upper` and whose lower 32 bits are `lower` |
| `Words.ShiftOrIsJoin` | src/main.rs:66 | in 64-bit arithmetic, shift-and-or of halves below 2^32 equals `upper * 2^32 + lower`, the form `Join64` uses |
| `Rng.Successor` | src/main.rs:57-61 | one `next_u32` step: the counter plus one, and 0 when the counter was 0xFFFF_FFFF (it wraps and does not fail) |
| `Rng.Draws` | src/main.rs:57-61 | `k` successive `next_u32` calls return exactly `k` values |
| `Rng.DrawsAt` | src/main.rs:57-61 | the `j`-th of those values (from 0), starting at counter `c`, is `(c + j + 1) mod 2^32` |
| `Rng.NextU32s` | src/main.rs:57-61 | `k` successive `next_u32` calls on one generator return exactly `Draws(c, k)` (so, by `DrawsAt`, the `j`-th is `(c + j + 1) mod 2^32`) and leave the counter at `(c + k) mod 2^32` |
| `Rng.FreshDraws` | src/main.rs:51-61 | from a fresh generator (counter 0), the `k`-th call returns `k mod 2^32` |
| `Rng.NextU64Value` | src/main.rs:63-67 | `next_u64` from counter `c` returns `((c+1) mod 2^32) * 2^32 + ((c+2) mod 2^32)` |
| `Rng.ChunkCount` | src/main.rs:70 | an `n`-byte buffer has ⌈n/4⌉ chunks: the least `r` with `4r >= n` |
| `Rng.FillStream` | src/main.rs:69-77 | the bytes of a fill, chunk by chunk: exactly `n` bytes for an `n`-byte buffer |
| `Rng.FillStreamAt` | src/main.rs:69-77 | byte `j` of a fill from counter `c` is byte `j mod 4`, little-endian, of `(c + j/4 + 1) mod 2^32` |
| `Rng.SimpleRng.constructor` | src/main.rs:51-53 | `SimpleRng::new()` starts with counter 0 |
| `Rng.SimpleRng.NextU32` | src/main.rs:57-61 | the counter steps once, with wrap-around, and the call returns the new counter |
| `Rng.SimpleRng.NextU64` | src/main.rs:63-67 | returns `NextU64Value` of the old counter and leaves the counter at `(c + 2) mod 2^32` |
| `Rng.SimpleRng.FillBytes` | src/main.rs:69-77 | writes exactly `FillStream(c, n)`, byte by byte the closed form above; the counter ends at `(c + ⌈n/4⌉) mod 2^32`; an empty buffer leaves the counter as it was; only the generator and the buffer change |
| `Rng.SimpleRng.TryFillBytes` | src/main.rs:79-82 | always returns `Ok(())`, with exactly the effect of `FillBytes` on buffer and counter |
| `Association.StatusLine` | src/main.rs:162-170 | the status query only picks one of three log lines (connected, not connected, query failed); none of them is a retry or a give-up |
| `Association.FirstSuccess` | src/main.rs:157-172 | finds the first successful connect: every earlier connect failed, and the one found succeeded (or there is none) |
| `Association.FirstSuccessIs` | src/main.rs:157-172 | if `k` connects fail and the next succeeds, the first success is at index `k` |
| `Association.ConnectWithRetry` | src/main.rs:155-184 | connected exactly when a connect within the first 10 succeeds. After `k < 10` failures and then a success, it is connected after `k + 1` attempts and `k` delays. If all 10 fail, it is unconnected after 10 attempts and 9 delays. Attempts are always between 1 and 10, so the loop terminates, and delays are always one fewer than attempts. The log numbers the attempts from 1. Every attempt except the last ends in a 5000 ms retry. The last ends in the status line (connected) or in giving up after 10 attempts |
| `Association.StatusDoesNotDecide` | src/main.rs:160-171 | two outcome sequences that agree on which connects succeeded stop at the same attempt, whatever their status queries reported |

## Left out

- Hardware, clock, timer, RNG peripheral and Wi-Fi driver initialization (src/main.rs:96-136): these are peripheral calls with no logic of their own.
- Wi-Fi configuration and start-up (src/main.rs:138-153): this copies the SSID and password into bounded strings and makes controller calls that panic on failure. The loop takes the connect outcomes as input instead.
- The network stack, DHCP and `net_task` (src/main.rs:186-212, 260-263): this is library code and a perpetual background task. What it shows off is concurrency.
- The wait for an address (src/main.rs:201): it is one library call with no timeout and no polling loop of its own.
- TCP connect, TLS handshake, write, flush and read (src/main.rs:214-256): these are calls into embassy-net and embedded-tls, whose code is not part of this model, and every failure is a panic. The static buffers are plumbing for those calls.
- UTF-8 decoding of the response and all `println!` output (src/main.rs:257 and throughout): the model keeps only which line is chosen for each attempt (`AttemptLog`), not the text.
- The randomness or cryptographic quality of `SimpleRng`: the `CryptoRng` marker (src/main.rs:85) is a tag, and the generator is a plain counter. Only its exact outputs are specified.
- The retry delay itself: the model counts delays and records their length (5000 ms) in the log. It does not model the timer or the suspension of the task.
- `ConnectWithRetry` requires at least 10 connect outcomes, one for each attempt the loop may make. The controller is not modelled, so its answers must be supplied up front.
- `Words.Join64` is stated with multiply-and-add on integers. `Words.ShiftOrIsJoin` connects it to the source's shift-and-or on 64-bit values, but only for bit-vector arguments. No lemma converts between the two representations.
