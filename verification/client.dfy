/** The connection wrapper's three read primitives, as functions over the bytes the
    peer has sent. A stream is the sequence of bytes still to arrive; a read returns
    what it took and the stream that remains. How the transport splits the bytes
    into deliveries is a `Schedule`, so statements that hold for every schedule
    hold however the reads are split. */
module Client {
  import opened Wrappers
  import opened Faults
  import opened Text

  /** How many bytes the transport hands over on the k-th read call (a pending
      stream always delivers at least one byte). */
  type Schedule = nat -> nat

  /** The largest byte array the runtime allocates (`Array.MaxLength`). */
  const MaxArrayLength: int := 0x7FFF_FFC7

  function Min(a: int, b: int): int {
    if a <= b then a else b
  }

  /** `ReadAsync(buffer)`: one read into a buffer of `bufferLength` bytes. */
  function Read(input: Bytes, bufferLength: int, grant: nat): (r: Result<Parsed<Bytes>>)
    ensures r.Ok? <==> bufferLength >= 1 && |input| > 0
    ensures bufferLength < 1 ==> r == Fail(EmptyBuffer)
    ensures bufferLength >= 1 && |input| == 0 ==> r == Fail(StreamClosed)
    ensures r.Ok? ==> 1 <= |r.value.value| <= bufferLength && input == r.value.value + r.value.rest
  {
    if bufferLength < 1 then Fail(EmptyBuffer)
    else if |input| == 0 then Fail(StreamClosed)
    else
      var n := Min(Min(bufferLength, if grant == 0 then 1 else grant), |input|);
      assert input == input[..n] + input[n..];
      Ok(Parsed(input[..n], input[n..]))
  }

  /** What an exact-length read must produce: a negative or oversized length
      cannot be allocated, a stream that ends early is closed, otherwise the next
      `length` bytes. */
  function TakeExact(input: Bytes, length: int): Result<Parsed<Bytes>> {
    if length < 0 then Fail(NegativeLength)
    else if length > MaxArrayLength then Fail(TooLarge)
    else if |input| < length then Fail(StreamClosed)
    else Ok(Parsed(input[..length], input[length..]))
  }

  /** `ReadExtractAsync(length)`: reads until exactly `length` bytes have arrived,
      whatever sizes the individual reads return. */
  method ReadExtract(input: Bytes, length: int, schedule: Schedule) returns (r: Result<Parsed<Bytes>>)
    ensures r.Ok? <==> 0 <= length <= |input| && length <= MaxArrayLength
    ensures r.Ok? ==> r.value.value == input[..length] && r.value.rest == input[length..]
    ensures r == TakeExact(input, length)
  {
    if length < 0 {
      return Fail(NegativeLength);
    }
    if length > MaxArrayLength {
      return Fail(TooLarge);
    }
    var buffer: Bytes := [];
    var bytesRead := 0;
    var calls := 0;
    while true
      invariant 0 <= bytesRead <= length && bytesRead <= |input|
      invariant buffer == input[..bytesRead]
      decreases length - bytesRead
    {
      var remaining := length - bytesRead;
      if remaining == 0 {
        break;
      }
      var chunk := Read(input[bytesRead..], remaining, schedule(calls));
      if chunk.Fail? {
        return Fail(chunk.error);
      }
      assert input[bytesRead..] == chunk.value.value + chunk.value.rest;
      assert input[..bytesRead + |chunk.value.value|] == buffer + chunk.value.value;
      buffer := buffer + chunk.value.value;
      bytesRead := bytesRead + |chunk.value.value|;
      calls := calls + 1;
    }
    return Ok(Parsed(buffer, input[bytesRead..]));
  }

  // ------------------------------------------------------------- lines

  /** A CR LF pair starts at offset `i`. */
  predicate CrlfAt(s: Bytes, i: int) {
    0 <= i && i + 1 < |s| && s[i] == CR && s[i + 1] == LF
  }

  /** Some CR LF pair ends within the first `bound` bytes. */
  predicate CrlfWithin(s: Bytes, bound: int) {
    exists i :: 0 <= i && i + 2 <= bound && CrlfAt(s, i)
  }

  /** `s` holds no CR LF pair. */
  predicate NoCrlf(s: Bytes) {
    forall i :: 0 <= i < |s| - 1 ==> !(s[i] == CR && s[i + 1] == LF)
  }

  /** The loop of `ReadLineAsync` after `n` bytes have been read one at a time
      without completing a CR LF. */
  function ScanLine(input: Bytes, maxLength: int, n: nat): (r: Result<Parsed<Bytes>>)
    requires n <= |input| && (n == 0 || n <= maxLength)
    requires !CrlfWithin(input, n)
    ensures r.Ok? <==> CrlfWithin(input, maxLength)
    ensures r == Fail(StreamClosed) <==> !CrlfWithin(input, maxLength) && |input| < maxLength
    ensures r == Fail(LineOverflow) <==> !CrlfWithin(input, maxLength) && |input| >= maxLength
    ensures r.Ok? ==>
              && input == r.value.value + CRLF + r.value.rest
              && |r.value.value| + 2 <= maxLength
              && !CrlfWithin(input, |r.value.value| + 1)
    decreases |input| - n
  {
    if n >= maxLength then
      Fail(LineOverflow)
    else if n >= |input| then
      assert forall i :: 0 <= i && i + 2 <= maxLength && CrlfAt(input, i) ==> i + 2 <= n;
      Fail(StreamClosed)
    else if n >= 1 && input[n - 1] == CR && input[n] == LF then
      assert CrlfAt(input, n - 1);
      assert input == input[..n - 1] + CRLF + input[n + 1..];
      Ok(Parsed(input[..n - 1], input[n + 1..]))
    else
      assert !CrlfWithin(input, n + 1) by {
        forall i | 0 <= i && i + 2 <= n + 1 && CrlfAt(input, i) ensures false {
          if i + 2 == n + 1 {
          }
        }
      }
      ScanLine(input, maxLength, n + 1)
  }

  /** `ReadLineAsync(maxLength)`: reads one byte at a time until the last two bytes
      read are CR LF, giving up once `maxLength` bytes have been read; returns the
      bytes before the CR LF. */
  function ReadLine(input: Bytes, maxLength: int): (r: Result<Parsed<Bytes>>)
    ensures r.Ok? <==> CrlfWithin(input, maxLength)
    ensures r == Fail(StreamClosed) <==> !CrlfWithin(input, maxLength) && |input| < maxLength
    ensures r == Fail(LineOverflow) <==> !CrlfWithin(input, maxLength) && |input| >= maxLength
    ensures r.Ok? ==>
              && input == r.value.value + CRLF + r.value.rest
              && |r.value.value| + 2 <= maxLength
              && !CrlfWithin(input, |r.value.value| + 1)
  {
    ScanLine(input, maxLength, 0)
  }

  /** A line without CR LF, written with its terminator and followed by anything,
      reads back as exactly that line when it fits the bound. */
  lemma ReadLineOfLine(line: Bytes, rest: Bytes, maxLength: int)
    requires NoCrlf(line) && |line| + 2 <= maxLength
    ensures ReadLine(line + CRLF + rest, maxLength) == Ok(Parsed(line, rest))
  {
    var s := line + CRLF + rest;
    assert CrlfAt(s, |line|);
    assert !CrlfWithin(s, |line| + 1) by {
      forall i | 0 <= i && i + 2 <= |line| + 1 && CrlfAt(s, i) ensures false {
        if i + 1 < |line| {
        }
      }
    }
    var r := ReadLine(s, maxLength);
    var l := r.value.value;
    assert s == l + CRLF + r.value.rest;
    assert CrlfAt(s, |l|);
    assert |l| == |line|;
    assert l == s[..|l|] == line;
    assert r.value.rest == s[|line| + 2..] == rest;
  }
}
