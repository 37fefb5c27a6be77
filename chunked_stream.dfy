/** The owned input stream of a decoder, reduced to what the decoder uses:
    a position in a resource of known size, `seek`, `skip`, `available`,
    `size`, `decodedLength` and `close`. Fetching, caching and decryption
    of chunks are not part of this model; what the network does during one
    call is passed in as a `Transport`. */
module ChunkedStream {
  import opened SeekMath

  datatype IoError = StreamClosed | TransportFailed

  /** Success or failure of an I/O call that returns nothing. */
  datatype Outcome = Pass | Fail(error: IoError)

  /** Success or failure of an I/O call that returns a value. */
  datatype IoResult<T> = IoOk(value: T) | IoErr(error: IoError)

  /** How the transport behind the stream behaves during one call: it
      delivers everything asked of it, it delivers at most `limit` bytes and
      then reports a short count, or it delivers at most `limit` bytes and
      then fails with an I/O error. */
  datatype Transport = Healthy | Stalls(limit: nat) | Breaks(limit: nat)

  /** The observable state of a stream. */
  datatype StreamView = StreamView(pos: nat, size: nat, closed: bool) {
    predicate Valid() {
      pos <= size <= IntMax
    }

    /** `available()`: the bytes from the position to the end. */
    function Available(): (r: nat)
      requires Valid()
      ensures pos + r == size
    {
      size - pos
    }
  }

  /** How far a skip of `n` bytes moves a stream with `available` bytes left. */
  function SkipDistance(available: nat, n: nat, t: Transport): (k: nat)
    ensures k <= n && k <= available
    ensures t.Healthy? ==> k == n || k == available
    ensures !t.Healthy? ==> k <= t.limit
  {
    match t
    case Healthy => Min(n, available)
    case Stalls(limit) => Min(Min(n, available), limit)
    case Breaks(limit) => Min(Min(n, available), limit)
  }

  /** `seek(where)`: fails without moving on a closed stream or a broken
      transport, otherwise moves to `where`. */
  function SeekOutcome(v: StreamView, t: Transport): (r: Outcome)
    ensures r.Pass? <==> !v.closed && !t.Breaks?
  {
    if v.closed then Fail(StreamClosed)
    else if t.Breaks? then Fail(TransportFailed)
    else Pass
  }

  function AfterSeek(v: StreamView, where: nat, t: Transport): (w: StreamView)
    requires v.Valid() && where <= v.size
    ensures w.Valid() && w.size == v.size && w.closed == v.closed
    ensures w.pos == if SeekOutcome(v, t).Pass? then where else v.pos
  {
    if SeekOutcome(v, t).Pass? then v.(pos := where) else v
  }

  /** `skip(n)`: fails without moving on a closed stream; otherwise advances
      by `SkipDistance` and reports that count, or fails after advancing
      when the transport breaks. */
  function SkipOutcome(v: StreamView, n: nat, t: Transport): (r: IoResult<nat>)
    requires v.Valid()
    ensures r.IoOk? <==> !v.closed && !t.Breaks?
    ensures r.IoOk? ==> r.value == SkipDistance(v.Available(), n, t)
  {
    if v.closed then IoErr(StreamClosed)
    else if t.Breaks? then IoErr(TransportFailed)
    else IoOk(SkipDistance(v.Available(), n, t))
  }

  function AfterSkip(v: StreamView, n: nat, t: Transport): (w: StreamView)
    requires v.Valid()
    ensures w.Valid() && w.size == v.size && w.closed == v.closed
    ensures v.closed ==> w.pos == v.pos
    ensures !v.closed ==> w.pos == v.pos + SkipDistance(v.Available(), n, t)
  {
    if v.closed then v else v.(pos := v.pos + SkipDistance(v.Available(), n, t))
  }

  class Stream {
    var pos: nat
    var size: nat
    var decodedLength: nat
    var closed: bool

    function View(): StreamView
      reads this
    {
      StreamView(pos, size, closed)
    }

    ghost predicate Valid()
      reads this
    {
      View().Valid()
    }

    function Available(): (r: nat)
      reads this
      requires Valid()
      ensures pos + r == size
    {
      View().Available()
    }

    constructor (size: nat, decodedLength: nat)
      requires size <= IntMax
      ensures Valid()
      ensures View() == StreamView(0, size, false)
      ensures this.decodedLength == decodedLength
    {
      this.pos := 0;
      this.size := size;
      this.decodedLength := decodedLength;
      this.closed := false;
    }

    method Seek(where: nat, t: Transport) returns (r: Outcome)
      requires Valid() && where <= size
      modifies this`pos
      ensures Valid()
      ensures View() == AfterSeek(old(View()), where, t)
      ensures r == SeekOutcome(old(View()), t)
    {
      r := SeekOutcome(View(), t);
      if r.Pass? {
        pos := where;
      }
    }

    method Skip(n: nat, t: Transport) returns (r: IoResult<nat>)
      requires Valid()
      modifies this`pos
      ensures Valid()
      ensures View() == AfterSkip(old(View()), n, t)
      ensures r == SkipOutcome(old(View()), n, t)
    {
      r := SkipOutcome(View(), n, t);
      if !closed {
        pos := pos + SkipDistance(Available(), n, t);
      }
    }

    method Close()
      requires Valid()
      modifies this`closed
      ensures Valid()
      ensures View() == old(View()).(closed := true)
    {
      closed := true;
    }
  }
}
