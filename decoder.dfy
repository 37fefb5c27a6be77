/** The base of every audio decoder of the player: it owns the input
    stream, turns a time position into a byte offset past the header,
    holds the output format once a codec variant has set it, and closes
    the stream. Decoding itself (`readInternal`) and the elapsed time
    (`time`) belong to the codec variants; here they are represented by
    what a variant reports, passed in as a parameter. */
module Decoders {
  import opened SeekMath
  import opened ChunkedStream

  /** The output format descriptor; only the sample size is read by the
      decoder base. */
  datatype AudioFormat = AudioFormat(sampleRate: real, sampleSizeInBits: int, channels: int)

  datatype DecoderError =
    | Io(cause: IoError)
    | CodecFailure
    | CannotGetTime
    | IllegalState

  datatype Option<T> = None | Some(value: T)

  datatype Result<T> = Success(value: T) | Failure(error: DecoderError)

  /** Java's `int` division by a positive divisor: it truncates toward zero. */
  function JavaDiv(a: int, d: nat): (q: int)
    requires d > 0
    ensures a >= 0 ==> 0 <= a - d * q < d
    ensures a < 0 ==> 0 <= d * q - a < d
  {
    if a >= 0 then a / d else -((-a) / d)
  }

  /** The stream after `seek(positionMs)`: rewound to `seekZero` and, for a
      positive position, advanced by the proportional skip; when the rewind
      fails, the stream has not moved. */
  function SeekView(v: StreamView, seekZero: nat, duration: nat, positionMs: int,
                    rewind: Transport, advance: Transport): (w: StreamView)
    requires v.Valid() && seekZero <= v.size
    ensures w.Valid() && w.size == v.size && w.closed == v.closed
  {
    var position := if positionMs < 0 then 0 else positionMs;
    var rewound := AfterSeek(v, seekZero, rewind);
    if SeekOutcome(v, rewind).Fail? || position == 0 then rewound
    else AfterSkip(rewound, ProportionalSkip(rewound.Available(), duration, position), advance)
  }

  /** Whether `seek(positionMs)` catches an I/O error and logs it: the
      rewind fails, the skip fails, or the skip reports fewer bytes than
      requested. */
  function SeekLogs(v: StreamView, seekZero: nat, duration: nat, positionMs: int,
                    rewind: Transport, advance: Transport): (logged: bool)
    requires v.Valid() && seekZero <= v.size
    ensures SeekOutcome(v, rewind).Fail? ==> logged
    ensures positionMs <= 0 ==> (logged <==> SeekOutcome(v, rewind).Fail?)
    ensures advance.Breaks? && positionMs > 0 ==> logged
  {
    var position := if positionMs < 0 then 0 else positionMs;
    var rewound := AfterSeek(v, seekZero, rewind);
    if SeekOutcome(v, rewind).Fail? then true
    else if position == 0 then false
    else
      var skip := ProportionalSkip(rewound.Available(), duration, position);
      SkipOutcome(rewound, skip, advance) != IoOk(skip)
  }

  /** A negative position is sought exactly as position 0. */
  lemma SeekNegativeIsSeekZero(v: StreamView, seekZero: nat, duration: nat, positionMs: int,
                               rewind: Transport, advance: Transport)
    requires v.Valid() && seekZero <= v.size && positionMs < 0
    ensures SeekView(v, seekZero, duration, positionMs, rewind, advance)
         == SeekView(v, seekZero, duration, 0, rewind, advance)
    ensures SeekLogs(v, seekZero, duration, positionMs, rewind, advance)
         == SeekLogs(v, seekZero, duration, 0, rewind, advance)
  {
  }

  /** Seeking to 0 on an open stream whose rewind succeeds leaves it exactly
      at `seekZero` with nothing skipped and nothing logged. */
  lemma SeekZeroRewinds(v: StreamView, seekZero: nat, duration: nat,
                        rewind: Transport, advance: Transport)
    requires v.Valid() && seekZero <= v.size
    requires !v.closed && !rewind.Breaks?
    ensures SeekView(v, seekZero, duration, 0, rewind, advance) == v.(pos := seekZero)
    ensures !SeekLogs(v, seekZero, duration, 0, rewind, advance)
  {
  }

  /** Seek never leaves the audio: when the rewind succeeds, the position
      lies between `seekZero` and `seekZero` plus what was available there;
      when it fails, the position is unchanged. */
  lemma SeekStaysInAudio(v: StreamView, seekZero: nat, duration: nat, positionMs: int,
                         rewind: Transport, advance: Transport)
    requires v.Valid() && seekZero <= v.size
    ensures var w := SeekView(v, seekZero, duration, positionMs, rewind, advance);
      if SeekOutcome(v, rewind).Pass?
      then seekZero <= w.pos <= seekZero + (v.size - seekZero)
      else w == v
  {
  }

  /** When seek logs nothing and the position is positive, the stream
      skipped the full request: it stands at `seekZero` plus the proportional
      share of what was available there. And whenever seek logs, the stream
      stays where the failing call left it, never beyond the requested
      offset. */
  lemma SeekLandsOnShare(v: StreamView, seekZero: nat, duration: nat, positionMs: int,
                                            rewind: Transport, advance: Transport)
    requires v.Valid() && seekZero <= v.size && positionMs > 0
    requires SeekOutcome(v, rewind).Pass?
    ensures var w := SeekView(v, seekZero, duration, positionMs, rewind, advance);
      var target := seekZero + ProportionalSkip(v.size - seekZero, duration, positionMs);
      && (!SeekLogs(v, seekZero, duration, positionMs, rewind, advance) ==> w.pos == target)
      && seekZero <= w.pos <= target
  {
    var rewound := AfterSeek(v, seekZero, rewind);
    assert rewound.pos == seekZero && rewound.Available() == v.size - seekZero;
  }

  /** With an open stream and a healthy transport, seek never logs, and it
      lands on the proportional offset. */
  lemma SeekHealthy(v: StreamView, seekZero: nat, duration: nat, positionMs: int)
    requires v.Valid() && seekZero <= v.size && !v.closed
    ensures !SeekLogs(v, seekZero, duration, positionMs, Healthy, Healthy)
    ensures SeekView(v, seekZero, duration, positionMs, Healthy, Healthy).pos
         == seekZero + (if positionMs <= 0 then 0 else ProportionalSkip(v.size - seekZero, duration, positionMs))
  {
    if positionMs > 0 {
      SeekLandsOnShare(v, seekZero, duration, positionMs, Healthy, Healthy);
    }
  }

  /** Seek is absolute: once the rewind succeeds, where it lands does not
      depend on where the stream was before. */
  lemma SeekIsAbsolute(v1: StreamView, v2: StreamView, seekZero: nat, duration: nat, positionMs: int,
                       rewind: Transport, advance: Transport)
    requires v1.Valid() && v2.Valid() && seekZero <= v1.size
    requires v1.size == v2.size && !v1.closed && !v2.closed && !rewind.Breaks?
    ensures SeekView(v1, seekZero, duration, positionMs, rewind, advance)
         == SeekView(v2, seekZero, duration, positionMs, rewind, advance)
  {
  }

  /** With a healthy transport, a later time position never lands on an
      earlier byte position. */
  lemma SeekMonotone(v: StreamView, seekZero: nat, duration: nat, p1: int, p2: int)
    requires v.Valid() && seekZero <= v.size && !v.closed && p1 <= p2
    ensures SeekView(v, seekZero, duration, p1, Healthy, Healthy).pos
         <= SeekView(v, seekZero, duration, p2, Healthy, Healthy).pos
  {
    SeekHealthy(v, seekZero, duration, p1);
    SeekHealthy(v, seekZero, duration, p2);
    if p1 > 0 {
      ProportionalSkipMono(v.size - seekZero, duration, p1, p2);
    }
  }

  /** With a healthy transport, seeking to the nominal duration or beyond
      lands on the end of the stream. */
  lemma SeekPastEndReachesEnd(v: StreamView, seekZero: nat, duration: nat, positionMs: int)
    requires v.Valid() && seekZero <= v.size && !v.closed && 0 < duration <= positionMs
    ensures SeekView(v, seekZero, duration, positionMs, Healthy, Healthy).pos == v.size
  {
    SeekHealthy(v, seekZero, duration, positionMs);
    ProportionalSkipPastEnd(v.size - seekZero, duration, positionMs);
  }

  /** One `seek` call as the player issues it, with what the transport does
      during its rewind and its skip. */
  datatype SeekCall = SeekCall(positionMs: int, rewind: Transport, advance: Transport)

  /** The stream after a series of `seek` calls, in order. */
  function SeekSeries(v: StreamView, seekZero: nat, duration: nat, calls: seq<SeekCall>): (w: StreamView)
    requires v.Valid() && seekZero <= v.size
    ensures w.Valid() && w.size == v.size && w.closed == v.closed
    ensures v.closed ==> w == v
    decreases |calls|
  {
    if calls == [] then v
    else
      var c := calls[0];
      SeekSeries(SeekView(v, seekZero, duration, c.positionMs, c.rewind, c.advance), seekZero, duration, calls[1..])
  }

  /** Seek is absolute over any series of calls: when the last rewind
      succeeds, the series lands where that last seek alone would land. */
  lemma {:induction false} SeekSeriesLastWins(v: StreamView, seekZero: nat, duration: nat, calls: seq<SeekCall>)
    requires v.Valid() && seekZero <= v.size && !v.closed
    requires calls != [] && !calls[|calls| - 1].rewind.Breaks?
    ensures var last := calls[|calls| - 1];
      SeekSeries(v, seekZero, duration, calls)
        == SeekView(v, seekZero, duration, last.positionMs, last.rewind, last.advance)
    decreases |calls|
  {
    var c := calls[0];
    var next := SeekView(v, seekZero, duration, c.positionMs, c.rewind, c.advance);
    if |calls| == 1 {
      assert SeekSeries(next, seekZero, duration, calls[1..]) == next;
    } else {
      SeekSeriesLastWins(next, seekZero, duration, calls[1..]);
      var last := calls[|calls| - 1];
      assert calls[1..][|calls[1..]| - 1] == last;
      SeekIsAbsolute(next, v, seekZero, duration, last.positionMs, last.rewind, last.advance);
    }
  }

  /** However many seeks are issued, after a rewind has once succeeded the
      position never again falls before `seekZero`. */
  lemma {:induction false} SeekSeriesStaysInAudio(v: StreamView, seekZero: nat, duration: nat, calls: seq<SeekCall>)
    requires v.Valid() && seekZero <= v.size && seekZero <= v.pos
    ensures seekZero <= SeekSeries(v, seekZero, duration, calls).pos <= v.size
    decreases |calls|
  {
    if calls != [] {
      var c := calls[0];
      SeekStaysInAudio(v, seekZero, duration, c.positionMs, c.rewind, c.advance);
      SeekSeriesStaysInAudio(SeekView(v, seekZero, duration, c.positionMs, c.rewind, c.advance),
                             seekZero, duration, calls[1..]);
    }
  }

  /** What a codec variant's `readInternal` reports for one call: a count of
      PCM bytes written to the sink, or a failure. */
  datatype ReadStep = Wrote(count: int) | ReadFailed(error: DecoderError)

  /** What every variant promises of `readInternal`: after `close` it produces
      no further audio, and it fails only with an I/O or codec error. */
  predicate ReadContract(closed: bool, step: ReadStep) {
    && (closed ==> !(step.Wrote? && step.count > 0))
    && (step.ReadFailed? ==> step.error.Io? || step.error.CodecFailure?)
  }

  class Decoder {
    const audioIn: Stream
    const normalizationFactor: real
    const duration: nat
    var closed: bool
    var seekZero: nat
    var format: Option<AudioFormat>

    /** Set once a variant's `time` has reported that it cannot determine the
        time; the variants promise that this condition is permanent. */
    ghost var timeUnavailable: bool

    ghost predicate Valid()
      reads this, audioIn
    {
      audioIn.Valid() && seekZero <= audioIn.size
    }

    constructor (audioIn: Stream, normalizationFactor: real, duration: nat)
      requires audioIn.Valid()
      ensures Valid()
      ensures this.audioIn == audioIn && this.normalizationFactor == normalizationFactor
      ensures this.duration == duration
      ensures !closed && seekZero == 0 && format == None && !timeUnavailable
    {
      this.audioIn := audioIn;
      this.normalizationFactor := normalizationFactor;
      this.duration := duration;
      this.closed := false;
      this.seekZero := 0;
      this.format := None;
      this.timeUnavailable := false;
    }

    /** A variant records where the audio data starts, past its header. */
    method SetSeekZero(offset: nat)
      requires Valid() && offset <= audioIn.size
      modifies this`seekZero
      ensures Valid() && seekZero == offset
    {
      seekZero := offset;
    }

    /** `writeSomeTo` delegates to the variant's `readInternal`, whose report
        is `step`, and passes its count or its failure through unchanged.
        While decoding, the variant reads `consumed` compressed bytes from the
        owned stream, which advances it; it cannot read past the end, nor
        from a closed stream. */
    method WriteSomeTo(step: ReadStep, consumed: nat) returns (r: Result<int>)
      requires Valid()
      requires ReadContract(closed, step)
      requires consumed <= audioIn.Available() && (audioIn.closed ==> consumed == 0)
      modifies audioIn`pos
      ensures Valid()
      ensures audioIn.View() == old(audioIn.View()).(pos := old(audioIn.pos) + consumed)
      ensures r.Success? <==> step.Wrote?
      ensures r.Success? ==> r.value == step.count
      ensures r.Failure? ==> r.error == step.error && r.error != IllegalState && r.error != CannotGetTime
      ensures closed ==> !(r.Success? && r.value > 0)
    {
      audioIn.pos := audioIn.pos + consumed;
      match step
      case Wrote(count) => r := Success(count);
      case ReadFailed(error) => r := Failure(error);
    }

    /** `time`, as the variant reports it (`report`). Once the variant has
        reported that it cannot determine the time, it reports so forever. */
    method Time(report: Result<int>) returns (r: Result<int>)
      requires report.Failure? ==> report.error == CannotGetTime
      requires timeUnavailable ==> report.Failure?
      modifies this`timeUnavailable
      ensures r == report
      ensures old(timeUnavailable) ==> r == Failure(CannotGetTime)
      ensures timeUnavailable == (old(timeUnavailable) || r.Failure?)
    {
      r := report;
      if r.Failure? {
        timeUnavailable := true;
      }
    }

    /** `close`: marks the decoder closed, then closes the owned stream. */
    method Close()
      requires Valid()
      modifies this`closed, audioIn`closed
      ensures Valid() && closed
      ensures audioIn.View() == old(audioIn.View()).(closed := true)
    {
      closed := true;
      audioIn.Close();
    }

    /** `seek(positionMs)`. I/O failures are caught; `logged` stands for the
        error the source logs, and nothing is propagated. */
    method Seek(positionMs: int, rewind: Transport, advance: Transport) returns (logged: bool)
      requires Valid()
      modifies audioIn`pos
      ensures Valid()
      ensures audioIn.View() == SeekView(old(audioIn.View()), seekZero, duration, positionMs, rewind, advance)
      ensures logged == SeekLogs(old(audioIn.View()), seekZero, duration, positionMs, rewind, advance)
    {
      var position := positionMs;
      if position < 0 {
        position := 0;
      }
      var rewound := audioIn.Seek(seekZero, rewind);
      if rewound.Fail? {
        logged := true;
        return;
      }
      logged := false;
      if position > 0 {
        var skip := RoundedShare(audioIn.Available(), duration, position);
        if skip > audioIn.Available() {
          skip := audioIn.Available();
        }
        var skipped := audioIn.Skip(skip, advance);
        if skipped != IoOk(skip) {
          logged := true;
        }
      }
    }

    /** `getAudioFormat`: the format once set, an illegal-state failure before. */
    function GetAudioFormat(): (r: Result<AudioFormat>)
      reads this
      ensures r.Failure? <==> format == None
      ensures r.Failure? ==> r.error == IllegalState
      ensures r.Success? ==> format == Some(r.value)
    {
      match format
      case None => Failure(IllegalState)
      case Some(f) => Success(f)
    }

    /** `setAudioFormat`: the format read from now on is `f`, and the sample
        size in bytes is derived from it. */
    method SetAudioFormat(f: AudioFormat)
      modifies this`format
      ensures format == Some(f)
      ensures GetAudioFormat() == Success(f)
      ensures SampleSizeBytes() == Success(JavaDiv(f.sampleSizeInBits, 8))
    {
      format := Some(f);
    }

    /** `sampleSizeBytes`: whole bytes per sample, failing like
        `getAudioFormat` while no format is set. */
    function SampleSizeBytes(): (r: Result<int>)
      reads this
      ensures r.Failure? <==> format == None
      ensures r.Failure? ==> r.error == IllegalState
      ensures r.Success? && format.value.sampleSizeInBits >= 0 ==>
        8 * r.value <= format.value.sampleSizeInBits < 8 * r.value + 8
    {
      match GetAudioFormat()
      case Failure(e) => Failure(e)
      case Success(f) => Success(JavaDiv(f.sampleSizeInBits, 8))
    }

    /** `duration()`: the nominal duration given at construction. */
    function Duration(): (r: nat)
      ensures r == duration
    {
      duration
    }

    /** `size()`: the total size of the owned stream. */
    function Size(): (r: nat)
      reads audioIn
      ensures r == audioIn.size
    {
      audioIn.size
    }

    /** `decodedLength()`: the bytes of the owned stream materialised so far. */
    function DecodedLength(): (r: nat)
      reads audioIn
      ensures r == audioIn.decodedLength
    {
      audioIn.decodedLength
    }
  }

  /** The halfway scenario: 1,000,000 bytes past the header, a 200,000 ms
      track, sought to 100,000 ms, lands 500,000 bytes past the header. */
  lemma SeekHalfwayScenario(v: StreamView, seekZero: nat)
    requires v.Valid() && !v.closed && v.size == seekZero + 1_000_000
    ensures SeekView(v, seekZero, 200_000, 100_000, Healthy, Healthy).pos == seekZero + 500_000
  {
    SeekHealthy(v, seekZero, 200_000, 100_000);
    ProportionalSkipHalfway();
  }
}
