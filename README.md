# dopplerfix: the sample-stream correction loop

dopplerfix removes the Doppler shift from a recording of a satellite signal.
The recording is a raw stream of interleaved little-endian single-precision
floats, in-phase (I) first and then quadrature (Q). The program reads it one
(I, Q) pair at a time. It multiplies each pair by a phase rotation that
cancels the predicted Doppler offset, and writes the result in the same
format.

This project models the loop that does this, `src/main.rs:76-98`, and
proves facts about it. The loop keeps two pieces of state:

- a 1-based sample index `idx`;
- an optional held offset `shift`.

For each complete pair it does four things:

1. It refreshes `shift` when no offset is held yet, or when `idx` is a
   multiple of the sample rate. The new offset is the negated orbital
   prediction for the unix second `start + idx / rate`, truncated.
2. It rotates the sample by the held offset, at the untruncated signal time
   `idx / rate`.
3. It writes the rotated pair.
4. It increments `idx`.

The loop stops at the first read that finds fewer than four bytes left.

The modules:

- `Codec` (`codec.dfy`) handles framing.
  - A float is kept as the four bytes of its 32-bit pattern, which is what
    `read_f32`/`write_f32` move unchanged.
  - It defines reading one float and writing one pair, and framing a whole
    byte stream into samples. It proves that the framing round-trips.
- `Schedule` (`schedule.dfy`) covers the schedule and the times.
  - It defines the refresh test, the oracle time and the phase time, and
    the offset in force at each index.
  - It defines the sequence of oracle calls a run makes.
  - It proves the call count, the position of each call, and which
    offset each sample uses.
- `Corrector` (`corrector.dfy`) holds the loop itself.
  - `Correct` is the `while` loop. Its loop body is `Step` (read the two
    floats, or stop) followed by `Emit` (refresh, rotate, write).
  - `CorrectSample` is the refresh-and-rotate step.
  - `Progress` is the loop invariant. It ties the bytes written, the
    oracle calls made and the held offset to the closed-form definitions.
- `Arith` (`arith.dfy`) holds division and real-arithmetic helper lemmas.
- `Wrappers` (`wrappers.dfy`) holds `Option`.

Two things stay abstract:

- **The orbital prediction.** `get_doppler_shift` with the fixed TLE,
  observer location and carrier frequency is the function
  `doppler: int -> real` of the observation.
- **The rotation.** The complex exponential, the multiply and the
  float conversions form the function parameter `rotate(sample, shift, t)`.

Both are inputs of the model, so every property holds whatever they are.

## Model

| member | source | states |
|---|---|---|
| Codec.EncodeF32LittleEndian | src/main.rs:90-91 | the four bytes written for a float are its 32-bit pattern, least significant byte first |
| Codec.DecodeF32LittleEndian | src/main.rs:80-81 | the float read from four bytes has, as its bit pattern, the integer those bytes stand for little-endian |
| Codec.BitsInjective | src/main.rs:80-81 | two floats with the same 32-bit value are the same float, so the little-endian integer determines what is read |
| Codec.DecodeEncodeF32 | src/main.rs:80-81 | reading the four bytes written for a float gives that float back |
| Codec.ReadF32 | src/main.rs:80-81 | a read at offset `pos` succeeds exactly when four bytes remain, and returns the float whose encoding is those four bytes |
| Codec.EncodePairLittleEndian | src/main.rs:90-91 | the eight bytes written for a pair are the 32-bit pattern of I and then that of Q, each least significant byte first |
| Codec.DecodePair | src/main.rs:80-84 | the pair framed by eight bytes is the one whose encoding they are |
| Codec.DecodeEncodePair | src/main.rs:80-84 | framing the eight bytes written for a pair gives that pair back |
| Codec.EncodeSamples | src/main.rs:90-91 | writing `n` pairs produces exactly `8 * n` bytes |
| Codec.DecodeSamples | src/main.rs:80-83 | a byte stream frames one pair per complete eight bytes: (byte count) / 8 pairs |
| Codec.EncodeDecodeSamples | src/main.rs:80-95 | re-encoding the framed pairs gives back the input up to its last complete pair |
| Codec.EncodeSamplesAppend | src/main.rs:90-91 | writing one more pair appends exactly its eight bytes to what was written |
| Codec.DecodeEncodeSamples | src/main.rs:80-91 | framing a written stream gives back the pairs that were written, in order |
| Codec.DecodeSamplesIgnoresPartialPair | src/main.rs:93-95 | bytes after the last complete pair do not change what is framed |
| Codec.DecodeSamplesAppend | src/main.rs:80-83 | appending eight bytes to a whole number of pairs frames exactly one more pair at the end |
| Codec.DecodeNextPair | src/main.rs:80-83 | two successful reads at a pair boundary frame one more sample, the pair read |
| Schedule.OracleTimeWholeSeconds | src/main.rs:86 | the oracle is asked about `start + s` where `s * rate <= idx < (s + 1) * rate`, i.e. the whole seconds elapsed, truncated |
| Schedule.OracleTimeFloorsPhaseTime | src/main.rs:86-88 | the whole seconds in the oracle time are the phase time `idx / rate` rounded down |
| Schedule.OracleTimeAtRefresh | src/main.rs:85-88 | at a refresh on a multiple of the rate the oracle time equals start plus the phase time; at index 1 with rate above 1 it is the start second while the phase time is already positive |
| Schedule.LastRefresh | src/main.rs:85 | the most recent refresh index at or before `i` is a refresh index in `1..i`, and no index after it up to `i` refreshes |
| Schedule.SecondStart | src/main.rs:85 | past the first second, the last multiple of the rate at or before `i` refreshes and no later index up to `i` does |
| Schedule.ShiftAtRefresh | src/main.rs:85-86 | at a refresh index the offset in force is the negated oracle answer for that index's oracle time |
| Schedule.ShiftHeld | src/main.rs:85-89 | at an index that does not refresh, the offset in force is the one of the previous sample |
| Schedule.ShiftFromLatestRefresh | src/main.rs:85-89 | the offset applied to sample `i` is the negated oracle answer at any refresh `j <= i` with no refresh after it up to `i` |
| Schedule.QueriesWellFormed | src/main.rs:85-86 | every oracle call after `n` samples is at a refresh index in `1..n`, asks about that index's oracle time, and calls come in increasing index order |
| Schedule.QueriedIffRefresh | src/main.rs:85-86 | the oracle is called at index `i` (of the first `n`) if and only if `i == 1` or `i % rate == 0` |
| Schedule.QueriedAtRefresh | src/main.rs:85-86 | every refresh index among the first `n` appears among the calls |
| Schedule.QueryCount | src/main.rs:77-97 | `n >= 1` samples make `n / rate + (rate > 1 ? 1 : 0)` oracle calls |
| Schedule.QueryAt | src/main.rs:85-86 | the `k`-th call is at index `m * rate` (index 1 for `m = 0`) and asks about second `start + m`, with `m = k` when rate > 1 and `m = k + 1` when rate is 1 |
| Schedule.ExampleSchedule | src/main.rs:85-86 | 2500 samples at rate 1000 make exactly three calls, at indices 1, 1000 and 2000, about seconds start, start + 1 and start + 2 |
| Schedule.ShiftFromLatestQuery | src/main.rs:85-89 | the offset in force at sample `i` is the negated answer of the last oracle call made up to `i` |
| Corrector.CorrectedAppend | src/main.rs:83-91 | one more input sample adds exactly one corrected sample at the end and leaves the earlier ones unchanged |
| Corrector.OutputStep | src/main.rs:80-91 | reading the pair at index `idx` and writing its rotation extends the output owed so far by exactly that pair's eight bytes |
| Corrector.CorrectSample | src/main.rs:84-89 | given the offset held after `idx - 1`, the sample is rotated by the offset in force at `idx` and phase time `idx / rate`; the offset is then held; the oracle is called, about the oracle time of `idx`, exactly when `idx` is a refresh index |
| Corrector.Step | src/main.rs:79-97 | one pass of the loop body either finds fewer than eight bytes left and changes nothing, or consumes eight bytes, advances `idx` by one and keeps the loop invariant |
| Corrector.Emit | src/main.rs:83-91 | processing a read pair keeps the invariant: output, oracle calls and held offset all move on to index `idx + 1` |
| Corrector.Correct | src/main.rs:76-98 | the loop ends with `idx` equal to (input length) / 8 + 1; the output has 8 bytes per complete input pair; it frames to the input pairs each rotated by the offset in force at its index and its untruncated phase time, and is their encoding; the oracle calls made are exactly those of the refresh schedule |
| Corrector.EndOfStream | src/main.rs:93-95 | when fewer than eight bytes remain, the pairs consumed are all the complete pairs of the input and the output and calls so far are the whole result |

## Left out

- Command-line parsing with clap (`src/main.rs:11-35`) is not modelled: the sample rate, start time, frequency, location and TLE are parameters.
- TLE extraction by regular expression (`src/main.rs:36-42`), start-time parsing with chrono (`src/main.rs:49-56`) and the splitting of the location (`src/main.rs:58-61`) are left out. They are configuration parsing in library code. Their panics on malformed arguments are not modelled either.
- The choice of file or standard stream and the buffered reader and writer (`src/main.rs:66-74`) are left out. Input is a byte sequence and output is the returned byte sequence. Any read error ends the loop, just as end of input does, which matches the single `_ => break` arm.
- Errors from `write_f32` panic through `unwrap` (`src/main.rs:90-91`). The writer is a `BufWriter` (`src/main.rs:66-69`) that is never flushed explicitly, so the output still buffered when `main` returns is flushed when the writer is dropped, and an error in that final flush is silently ignored. The model treats every write, including that last flush, as succeeding.
- The orbital prediction `get_doppler_shift` (`src/main.rs:86`) is the `doppler` function of the observation. src/predict.rs is not part of this model.
- Floating-point numerics are left out: the complex exponential, the f64 multiply, the f32 to f64 widening and the f64 to f32 narrowing of the result (`src/main.rs:76, 84, 89-91`). They form the `rotate` parameter, so no property of the rotation itself (zero shift leaves a sample unchanged, magnitude is kept) is proved.
- Schedule.OracleTime: computed as `start + idx / rate` in integers, whereas the source divides in f64 and truncates with `as i64`. The two agree while `idx` is exactly representable in f64, far beyond any recording length, and the sum `start + idx / rate` is not checked for i64 overflow.
- Schedule.PhaseTime: an exact rational `idx / rate`, whereas the source rounds the f64 quotient.
- Corrector.Correct: requires a sample rate above zero. With rate 0 the first sample (where `shift.is_none()` short-circuits the `%`) computes `(1.0 / 0.0) as i64`, which saturates to `i64::MAX`, and `start_time + i64::MAX` (`src/main.rs:86`) overflows for any positive start time: a debug build panics before the oracle is called, a release build wraps. A second sample panics on `idx % 0`. None of this is modelled.
- Corrector.Correct: `idx` is an unbounded natural, which matches the source's `usize` on a 64-bit target. On a 32-bit target `idx += 1` (`src/main.rs:97`) overflows after 2^32 - 1 samples, about 32 GiB of streamed input: a debug build panics there, and a release build wraps `idx` to 0, so that sample refreshes (`0 % rate == 0`) with oracle time `start` and phase time 0. This wrap is not modelled.
- Corrector.Correct: the held offset is a local of the loop and not returned. Its value after each sample is stated by the invariant `Corrector.Progress`, which `Corrector.Step` and `Corrector.Emit` keep.
- src/main.rs has no check that the input is a whole number of pairs. A trailing partial pair, including a lone I float, is dropped silently, as `Codec.DecodeSamplesIgnoresPartialPair` states.
