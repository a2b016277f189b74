/** Buffering a response body inside a fixed allocation bound. */
module ResponseBody {
  import opened Bytes
  import opened Options

  datatype Body = TooLarge | BadEncoding | Buffered(bytes: seq<Byte>, truncated: bool)

  ghost function Concat(chunks: seq<seq<Byte>>): seq<Byte> {
    if chunks == [] then [] else Concat(chunks[..|chunks| - 1]) + chunks[|chunks| - 1]
  }

  predicate Declares(declared: Option<nat>, max: nat) {
    declared.Some? && declared.value > max
  }

  /** What the reader is for: a function of the bytes alone, however they were cut into chunks. */
  function Bounded(bytes: seq<Byte>, max: nat, truncate: bool, declared: Option<nat>): Body {
    if |bytes| <= max then Buffered(bytes, truncate && Declares(declared, max))
    else if truncate then Buffered(bytes[..max], true)
    else TooLarge
  }

  lemma {:induction false} ConcatGrows(chunks: seq<seq<Byte>>, i: nat)
    requires i <= |chunks|
    ensures Concat(chunks[..i]) <= Concat(chunks)
    decreases |chunks| - i
  {
    if i == |chunks| {
      assert chunks[..i] == chunks;
    } else {
      ConcatGrows(chunks, i + 1);
      assert chunks[..i + 1][..i] == chunks[..i];
    }
  }

  /** The already-consumed branch. */
  method ReadConsumed(consumed: seq<Byte>, max: nat, truncate: bool, declared: Option<nat>) returns (r: Body)
    ensures r == Bounded(consumed, max, truncate, declared)
  {
    var truncated := truncate && Declares(declared, max);
    if |consumed| > max && !truncate { return TooLarge; }
    return Buffered(if |consumed| <= max then consumed else consumed[..max], truncated || |consumed| > max);
  }

  /** The streaming branch; `peak` is the largest size the buffer reached. */
  method ReadStream(chunks: seq<seq<Byte>>, max: nat, truncate: bool, declared: Option<nat>)
    returns (r: Body, peak: nat)
    ensures r == Bounded(Concat(chunks), max, truncate, declared)
    ensures peak <= max
  {
    var body: seq<Byte> := [];
    peak := 0;
    var truncated := truncate && Declares(declared, max);
    ghost var all := Concat(chunks);
    for i := 0 to |chunks|
      invariant body == Concat(chunks[..i]) && |body| <= max && peak <= max
      invariant truncated == (truncate && Declares(declared, max))
    {
      var chunk := chunks[i];
      ConcatGrows(chunks, i + 1);
      assert chunks[..i + 1][..i] == chunks[..i];
      if chunk == [] { continue; }
      var remaining := max - |body|;
      if |chunk| > remaining {
        if !truncate { return TooLarge, peak; }
        body := body + chunk[..remaining];
        peak := max;
        assert body == Concat(chunks[..i + 1])[..max];
        return Buffered(body, true), peak;
      }
      body := body + chunk;
      peak := |body|;
      if truncated && |body| == max {
        assert body == all[..max];
        return Buffered(body, true), peak;
      }
    }
    assert chunks[..|chunks|] == chunks;
    return Buffered(body, truncated), peak;
  }

  /** The body as the client library hands it over: already read, or still to be streamed. */
  datatype Source = Consumed(bytes: seq<Byte>) | Streamed(chunks: seq<seq<Byte>>)

  ghost function Content(source: Source): seq<Byte> {
    match source
    case Consumed(bytes) => bytes
    case Streamed(chunks) => Concat(chunks)
  }

  /** The checks before reading: an encoded body is refused, and so is an announced excess. */
  method BoundedResponse(identity: bool, declared: Option<nat>, source: Source, max: nat, truncate: bool)
    returns (r: Body)
    ensures !identity ==> r == BadEncoding
    ensures identity && !truncate ==>
      r == if |Content(source)| > max || (declared.Some? && declared.value > max) then TooLarge
           else Buffered(Content(source), false)
    ensures identity && truncate ==>
      && r.Buffered?
      && r.bytes == Content(source)[..if |Content(source)| <= max then |Content(source)| else max]
      && (r.truncated <==> |Content(source)| > max || (declared.Some? && declared.value > max))
  {
    if !identity { return BadEncoding; }
    if !truncate && Declares(declared, max) { return TooLarge; }
    match source {
      case Consumed(bytes) =>
        r := ReadConsumed(bytes, max, truncate, declared);
      case Streamed(chunks) =>
        var peak;
        r, peak := ReadStream(chunks, max, truncate, declared);
    }
  }
}
