# Decoder base of the librespot-java player, in Dafny

This project models `Decoder`, the abstract base class of the player's audio
decoders (`player/src/main/java/xyz/gianlu/librespot/player/decoders/Decoder.java`).
A decoder owns a seekable, chunked input stream. It translates a time position
into a byte offset past the container header (`seekZero`), holds the output
audio format once a codec variant has set it, and closes the owned stream.
Decoding (`readInternal`) and elapsed time (`time`) are abstract in the source.
The model gives them the contracts every variant must meet and models the base's
delegation to them.

Files:

- `seek_math.dfy` (module `SeekMath`): the proportional seek arithmetic.
  This is `Math.round(available / (float) duration * positionMs)` capped at
  `available`, with its monotonicity, the cap at the end, and the worked examples.
- `chunked_stream.dfy` (module `ChunkedStream`): the owned stream reduced to
  position, size, materialised length and a closed flag. It is a class `Stream`
  whose `Seek`, `Skip` and `Close` methods are tied to value-level functions
  over a `StreamView`. The network's behaviour during one call is a `Transport`
  parameter: it is healthy, it stalls after some bytes (a short skip count), or
  it breaks after some bytes (an I/O error).
- `decoder.dfy` (module `Decoders`): the class `Decoder` with its fields and
  operations. It also holds `SeekView` and `SeekLogs`, the specification of
  `seek`, and the lemmas about it.

The seek's log call is represented by the Boolean `logged` that `Seek` returns.
It is true exactly when the source would catch an `IOException` and log it.
Nothing is propagated to the caller, as in the source.

The format slot is meant to be set once by a variant, but `setAudioFormat`
(Decoder.java:93-95) does not enforce that. The model follows the code: a later
`SetAudioFormat` replaces the earlier format.

## Model

| member | source | states |
|---|---|---|
| `SeekMath.RoundHalfUp` | player/src/main/java/xyz/gianlu/librespot/player/decoders/Decoder.java:75 | `Math.round` of a non-negative quotient: the result is the nearest integer, with halves rounded up |
| `SeekMath.RoundedShare` | player/src/main/java/xyz/gianlu/librespot/player/decoders/Decoder.java:75 | the rounded share `available / duration * positionMs`. It saturates at Integer.MAX_VALUE. With duration 0 it is 0 exactly when no bytes remain (NaN) and the maximum otherwise (+Infinity) |
| `SeekMath.ProportionalSkip` | player/src/main/java/xyz/gianlu/librespot/player/decoders/Decoder.java:75-76 | the requested skip never exceeds `available`; when it is below the cap it is the rounded proportional share, and it equals `available` only when that rounded share reaches `available`; with duration 0 it is everything available |
| `SeekMath.ProportionalSkipPastEnd` | player/src/main/java/xyz/gianlu/librespot/player/decoders/Decoder.java:75-76 | a position at or past the nominal duration requests all available bytes |
| `SeekMath.RoundHalfUpMono` | player/src/main/java/xyz/gianlu/librespot/player/decoders/Decoder.java:75 | rounding preserves order |
| `SeekMath.ProportionalSkipMono` | player/src/main/java/xyz/gianlu/librespot/player/decoders/Decoder.java:75-76 | a later position never requests fewer bytes |
| `SeekMath.ProportionalSkipHalfway` | player/src/main/java/xyz/gianlu/librespot/player/decoders/Decoder.java:75-76 | 1,000,000 bytes, 200,000 ms, seek to 100,000 ms: skip 500,000 bytes |
| `SeekMath.ProportionalSkipCapped` | player/src/main/java/xyz/gianlu/librespot/player/decoders/Decoder.java:75-76 | 1,000,000 bytes, 200,000 ms, seek to 500,000 ms: the computed 2,500,000 is capped at 1,000,000 |
| `ChunkedStream.SkipDistance` | player/src/main/java/xyz/gianlu/librespot/player/decoders/Decoder.java:78 | a skip moves at most the requested count and at most what is available; on a healthy transport it stops only at one of the two |
| `ChunkedStream.SeekOutcome` | player/src/main/java/xyz/gianlu/librespot/player/decoders/Decoder.java:73 | the stream's seek succeeds exactly when the stream is open and the transport does not break |
| `ChunkedStream.AfterSeek` | player/src/main/java/xyz/gianlu/librespot/player/decoders/Decoder.java:73 | a successful stream seek moves to the target; a failed one leaves the position unchanged |
| `ChunkedStream.SkipOutcome` | player/src/main/java/xyz/gianlu/librespot/player/decoders/Decoder.java:78 | the stream's skip reports a count exactly when the stream is open and the transport does not break, and that count is the distance moved |
| `ChunkedStream.AfterSkip` | player/src/main/java/xyz/gianlu/librespot/player/decoders/Decoder.java:78 | a skip advances an open stream by the skip distance, never past its end, and leaves a closed one in place |
| `ChunkedStream.Stream.Available` | player/src/main/java/xyz/gianlu/librespot/player/decoders/Decoder.java:75-76 | `available()` is the number of bytes from the position to the end |
| `ChunkedStream.Stream.Seek` | player/src/main/java/xyz/gianlu/librespot/player/decoders/Decoder.java:73 | the stream's state and result after `audioIn.seek` are those of `AfterSeek` and `SeekOutcome` |
| `ChunkedStream.Stream.Skip` | player/src/main/java/xyz/gianlu/librespot/player/decoders/Decoder.java:78 | the stream's state and result after `audioIn.skip` are those of `AfterSkip` and `SkipOutcome` |
| `ChunkedStream.Stream.Close` | player/src/main/java/xyz/gianlu/librespot/player/decoders/Decoder.java:66 | closing sets only the stream's closed flag |
| `Decoders.JavaDiv` | player/src/main/java/xyz/gianlu/librespot/player/decoders/Decoder.java:98 | Java `int` division by a positive divisor truncates toward zero |
| `Decoders.SeekView` | player/src/main/java/xyz/gianlu/librespot/player/decoders/Decoder.java:69-85 | seek changes only the stream's position, keeping it within the stream |
| `Decoders.SeekLogs` | player/src/main/java/xyz/gianlu/librespot/player/decoders/Decoder.java:72-84 | a failed rewind is always logged; a seek to 0 or below is logged exactly when the rewind fails; a broken skip is logged |
| `Decoders.SeekNegativeIsSeekZero` | player/src/main/java/xyz/gianlu/librespot/player/decoders/Decoder.java:70 | a negative position has the same effect and the same logging as position 0 |
| `Decoders.SeekZeroRewinds` | player/src/main/java/xyz/gianlu/librespot/player/decoders/Decoder.java:73-74 | on an open stream whose rewind succeeds, seeking to 0 leaves the stream exactly at `seekZero` with nothing skipped and nothing logged |
| `Decoders.SeekStaysInAudio` | player/src/main/java/xyz/gianlu/librespot/player/decoders/Decoder.java:73-78 | after a successful rewind, `seekZero <= pos <= seekZero + available at seekZero`; after a failed rewind the stream is unchanged |
| `Decoders.SeekLandsOnShare` | player/src/main/java/xyz/gianlu/librespot/player/decoders/Decoder.java:75-84 | for a positive position whose rewind succeeds: if seek logs nothing, the position is `seekZero + ProportionalSkip(...)`; if it logs, the stream stays where the skip left it, between `seekZero` and that target |
| `Decoders.SeekHealthy` | player/src/main/java/xyz/gianlu/librespot/player/decoders/Decoder.java:73-79 | on an open stream with a healthy transport seek never logs and lands on the proportional offset |
| `Decoders.SeekIsAbsolute` | player/src/main/java/xyz/gianlu/librespot/player/decoders/Decoder.java:73 | once the rewind succeeds, the result does not depend on the position before the seek |
| `Decoders.SeekMonotone` | player/src/main/java/xyz/gianlu/librespot/player/decoders/Decoder.java:70-78 | on an open stream with a healthy transport, a later time position never lands on an earlier byte position |
| `Decoders.SeekPastEndReachesEnd` | player/src/main/java/xyz/gianlu/librespot/player/decoders/Decoder.java:75-78 | on an open stream with a healthy transport, seeking to a positive nominal duration or beyond lands on the end of the stream |
| `Decoders.SeekSeries` | player/src/main/java/xyz/gianlu/librespot/player/decoders/Decoder.java:69-85 | any series of seeks keeps the stream's size and closed flag and its position within the stream; on a closed stream nothing moves |
| `Decoders.SeekSeriesLastWins` | player/src/main/java/xyz/gianlu/librespot/player/decoders/Decoder.java:73-78 | after a series of seeks whose last rewind succeeds, the stream is where that last seek alone would put it |
| `Decoders.SeekSeriesStaysInAudio` | player/src/main/java/xyz/gianlu/librespot/player/decoders/Decoder.java:73-78 | once the position is at or past `seekZero`, no series of seeks moves it before `seekZero` or past the end |
| `Decoders.SeekHalfwayScenario` | player/src/main/java/xyz/gianlu/librespot/player/decoders/Decoder.java:73-78 | on an open stream with a healthy transport, 1,000,000 bytes past `seekZero`, 200,000 ms, seek to 100,000 ms: the position is `seekZero + 500,000` |
| `Decoders.Decoder.constructor` | player/src/main/java/xyz/gianlu/librespot/player/decoders/Decoder.java:40-49 | the decoder owns the given stream, keeps factor and duration, starts open, with `seekZero` 0 and no format |
| `Decoders.Decoder.SetSeekZero` | player/src/main/java/xyz/gianlu/librespot/player/decoders/Decoder.java:41 | a variant sets the header offset, which lies within the stream |
| `Decoders.Decoder.WriteSomeTo` | player/src/main/java/xyz/gianlu/librespot/player/decoders/Decoder.java:51-55 | the variant's count or failure is passed through unchanged, only I/O or codec failures occur, and no audio is produced after close; the variant's reads advance the owned stream by the bytes it consumed, never past the end and never on a closed stream |
| `Decoders.Decoder.Time` | player/src/main/java/xyz/gianlu/librespot/player/decoders/Decoder.java:57-61 | the variant's report is returned; once "cannot get time" has been reported, every later call reports it |
| `Decoders.Decoder.Close` | player/src/main/java/xyz/gianlu/librespot/player/decoders/Decoder.java:63-67 | the decoder is closed and its stream is closed; nothing else changes, and no method sets `closed` back to false |
| `Decoders.Decoder.Seek` | player/src/main/java/xyz/gianlu/librespot/player/decoders/Decoder.java:69-85 | the stream after seek is `SeekView` of the stream before, and the error is logged exactly as `SeekLogs` says; nothing is propagated |
| `Decoders.Decoder.GetAudioFormat` | player/src/main/java/xyz/gianlu/librespot/player/decoders/Decoder.java:87-91 | fails with illegal-state exactly when no format is set, and otherwise returns the set format |
| `Decoders.Decoder.SetAudioFormat` | player/src/main/java/xyz/gianlu/librespot/player/decoders/Decoder.java:93-95 | afterwards `GetAudioFormat` returns `f` and `SampleSizeBytes` returns `f.sampleSizeInBits / 8` |
| `Decoders.Decoder.SampleSizeBytes` | player/src/main/java/xyz/gianlu/librespot/player/decoders/Decoder.java:97-99 | fails like `GetAudioFormat` while no format is set; otherwise returns the whole bytes in a sample |
| `Decoders.Decoder.Duration` | player/src/main/java/xyz/gianlu/librespot/player/decoders/Decoder.java:101-103 | returns the constructor's duration unchanged |
| `Decoders.Decoder.Size` | player/src/main/java/xyz/gianlu/librespot/player/decoders/Decoder.java:105-107 | returns the stream's size unchanged |
| `Decoders.Decoder.DecodedLength` | player/src/main/java/xyz/gianlu/librespot/player/decoders/Decoder.java:109-111 | returns the stream's materialised length unchanged |

## Left out

- SeekMath.RoundedShare: the share is computed with exact rational arithmetic, not with Java's 32-bit float. Float precision can move the result by a byte or more on large streams. The exact values at duration 0 (+Infinity and NaN) and the saturation of `Math.round` are modelled.
- Decoders.Decoder.constructor: `duration` is a `nat`; negative durations, whose float quotient would ask the stream to skip a negative count, are not modelled.
- Decoders.Decoder.Valid: `seekZero` is assumed to lie within the stream; the source does not check the header offset a variant sets.
- `decryptTimeMs` (Decoder.java:113-115) delegates to `GeneralAudioStream`, which is not part of this model.
- The stream class `AbsChunkedInputStream` is not part of this model. The model assumes that every seek and skip on a closed stream fails, that a failed seek does not move, and that a skip never passes the end.
- ChunkedStream.Stream.Close: an I/O failure while closing the stream is not modelled, so `Decoders.Decoder.Close` never fails.
- `readInternal` and `time` are abstract. `WriteSomeTo` and `Time` take the variant's report as a parameter (and `WriteSomeTo` the number of compressed bytes the variant read from the stream), and their requires clauses state what variants promise. The PCM bytes written to the `OutputStream` sink are not modelled, only their count.
- `closed` is `volatile` and may be read by other threads; the model treats it as an ordinary field, and concurrency is not modelled.
- The log call of `seek` is not modelled beyond the returned `logged` flag; exception messages and causes are not modelled.
- `normalizationFactor` is kept as a `real` and never read by the base class; the float type is not modelled.
- `CannotGetTimeException` and `CodecException` (Decoder.java:117-135) are the `CannotGetTime` and `CodecFailure` error variants.
- `BUFFER_SIZE` (Decoder.java:34) is a public constant that the base class never reads; it is not modelled.
