/**
 The mock transport: `HttpBuffer`, a sink that accepts a random-sized prefix
 of every write, and `ServerRequest`, a source over a byte slice that hands
 out a random-sized prefix on every read.

 The thread-local random generator is not modelled as state: each `Read`
 and `Write` takes the length `gen_range(1..=n)` would have drawn as a
 parameter, and the loops that drive them take an `Rng`, a function from
 (draw number, upper bound) to such a length.
 */
module Mock {
  import opened Wrappers

  newtype uint8 = x: int | 0 <= x < 0x100
  newtype u64 = x: int | 0 <= x < 0x1_0000_0000_0000_0000

  type Bytes = seq<uint8>

  /** A writable buffer with the boundary and optional content length of the request it will become. */
  datatype HttpBuffer = HttpBuffer(buf: Bytes, boundary: string, contentLen: Option<u64>)

  /** A readable request: `data` is the part of the buffer not yet read. */
  datatype ServerRequest = ServerRequest(data: Bytes, boundary: string, contentLen: Option<u64>)

  /** `Rng(k, n)` is the `k`-th draw of `gen_range(1..=n)`. */
  type Rng = (nat, nat) -> nat

  /** Every draw lies in the range it was asked for. */
  ghost predicate ValidRng(rng: Rng) {
    forall k: nat, n: nat :: 1 <= n ==> 1 <= rng(k, n) <= n
  }

  function Min(a: nat, b: nat): nat {
    if a <= b then a else b
  }

  /** `HttpBuffer::with_buf`. */
  function WithBuf(buf: Bytes, boundary: string, contentLen: Option<u64>): (b: HttpBuffer)
    ensures b.buf == buf && b.boundary == boundary && b.contentLen == contentLen
  {
    HttpBuffer(buf, boundary, contentLen)
  }

  /** `HttpBuffer::new_empty`. */
  function NewEmpty(boundary: string, contentLen: Option<u64>): (b: HttpBuffer)
    ensures b.buf == [] && b.boundary == boundary && b.contentLen == contentLen
  {
    WithBuf([], boundary, contentLen)
  }

  /** `HttpBuffer::for_server`: a request over exactly the buffer's bytes and metadata. */
  function ForServer(hb: HttpBuffer): (r: ServerRequest)
    ensures r.data == hb.buf && r.boundary == hb.boundary && r.contentLen == hb.contentLen
  {
    ServerRequest(hb.buf, hb.boundary, hb.contentLen)
  }

  /** `ServerRequest::new`: no content length. */
  function NewRequest(data: Bytes, boundary: string): (r: ServerRequest)
    ensures r.data == data && r.boundary == boundary && r.contentLen == None
  {
    ServerRequest(data, boundary, None)
  }

  /** The mock's `multipart_boundary`: the boundary is always known. */
  function MultipartBoundary(req: ServerRequest): (r: Option<string>)
    ensures r.Some? && r.value == req.boundary
  {
    Some(req.boundary)
  }

  datatype SliceRead = SliceRead(rest: Bytes, dst: Bytes, amt: nat)

  /**
   Reading from a byte slice into `dst`: copy as many bytes as both sides
   allow, leave the rest of `dst` alone, and advance the slice past them.
   */
  function ReadSlice(data: Bytes, dst: Bytes): (r: SliceRead)
    ensures r.amt == Min(|data|, |dst|)
    ensures r.amt <= |data| && r.rest == data[r.amt..]
    ensures |r.dst| == |dst| && r.amt <= |data| && r.amt <= |dst|
            && (forall i :: 0 <= i < r.amt ==> r.dst[i] == data[i])
            && (forall i :: r.amt <= i < |dst| ==> r.dst[i] == dst[i])
  {
    var amt := Min(|data|, |dst|);
    SliceRead(data[amt..], data[..amt] + dst[amt..], amt)
  }

  datatype ReadResult = ReadResult(req: ServerRequest, out: Bytes, n: nat)

  /**
   `ServerRequest::read` into `out`, where `len` is the length drawn from
   `1..=out.len()`; it is irrelevant when `out` is empty.
   */
  function Read(req: ServerRequest, out: Bytes, len: nat): (r: ReadResult)
    requires |out| > 0 ==> 1 <= len <= |out|
    ensures |out| == 0 ==> r.n == 0 && r.req == req && r.out == out
    ensures |out| > 0 ==> r.n == Min(len, |req.data|)
    ensures r.n <= |out| && (|out| > 0 ==> r.n <= len)
    ensures r.n > 0 <==> |out| > 0 && |req.data| > 0
    ensures |r.out| == |out| && r.n <= |req.data|
            && forall i :: 0 <= i < |out| ==> r.out[i] == (if i < r.n then req.data[i] else out[i])
    ensures r.n <= |req.data| && r.req.data == req.data[r.n..]
    ensures r.req.boundary == req.boundary && r.req.contentLen == req.contentLen
  {
    if |out| == 0 then ReadResult(req, out, 0)
    else
      var s := ReadSlice(req.data, out[..len]);
      ReadResult(ServerRequest(s.rest, req.boundary, req.contentLen), s.dst + out[len..], s.amt)
  }

  /** What one read delivers, followed by what it leaves, is the data it started from. */
  lemma ReadSplitsData(req: ServerRequest, out: Bytes, len: nat)
    requires |out| > 0 ==> 1 <= len <= |out|
    ensures var r := Read(req, out, len);
            r.n <= |r.out| && r.out[..r.n] + r.req.data == req.data
  {
    var r := Read(req, out, len);
    assert r.out[..r.n] == req.data[..r.n];
    assert req.data == req.data[..r.n] + req.data[r.n..];
  }

  datatype ReadSession = ReadSession(req: ServerRequest, out: Bytes, delivered: Bytes)

  /**
   Reads with the given lengths, one after another, into the same buffer;
   `delivered` is the concatenation of what each read reported.
   */
  function ReadAll(req: ServerRequest, out: Bytes, lens: seq<nat>): (r: ReadSession)
    requires |out| > 0 && forall i :: 0 <= i < |lens| ==> 1 <= lens[i] <= |out|
    ensures |r.out| == |out|
    ensures r.req.boundary == req.boundary && r.req.contentLen == req.contentLen
    decreases |lens|
  {
    if |lens| == 0 then ReadSession(req, out, [])
    else
      var first := Read(req, out, lens[0]);
      var tail := ReadAll(first.req, first.out, lens[1..]);
      ReadSession(tail.req, tail.out, first.out[..first.n] + tail.delivered)
  }

  /** Concatenation regrouped: `a` followed by `b + c` where `b + c == d`. */
  lemma Regroup(a: Bytes, b: Bytes, c: Bytes, d: Bytes)
    requires b + c == d
    ensures (a + b) + c == a + d
  {
  }

  /**
   The step of `ReadAllLossless`: if the reads after the first lose nothing,
   neither do all of them.
   */
  lemma ReadAllLosslessStep(req: ServerRequest, out: Bytes, lens: seq<nat>)
    requires |out| > 0 && |lens| > 0 && forall i :: 0 <= i < |lens| ==> 1 <= lens[i] <= |out|
    requires var first := Read(req, out, lens[0]);
             var tail := ReadAll(first.req, first.out, lens[1..]);
             tail.delivered + tail.req.data == first.req.data
    ensures ReadAll(req, out, lens).delivered + ReadAll(req, out, lens).req.data == req.data
  {
    var first := Read(req, out, lens[0]);
    var tail := ReadAll(first.req, first.out, lens[1..]);
    ReadSplitsData(req, out, lens[0]);
    Regroup(first.out[..first.n], tail.delivered, tail.req.data, first.req.data);
  }

  /** Any sequence of reads loses nothing: delivered bytes plus the rest are the original data. */
  lemma {:induction false} ReadAllLossless(req: ServerRequest, out: Bytes, lens: seq<nat>)
    requires |out| > 0 && forall i :: 0 <= i < |lens| ==> 1 <= lens[i] <= |out|
    ensures ReadAll(req, out, lens).delivered + ReadAll(req, out, lens).req.data == req.data
    ensures ReadAll(req, out, lens).req.boundary == req.boundary
    decreases |lens|
  {
    if |lens| > 0 {
      var first := Read(req, out, lens[0]);
      ReadAllLossless(first.req, first.out, lens[1..]);
      ReadAllLosslessStep(req, out, lens);
    }
  }

  /** Every read while data remains consumes at least one byte. */
  lemma {:induction false} ReadAllProgress(req: ServerRequest, out: Bytes, lens: seq<nat>)
    requires |out| > 0 && forall i :: 0 <= i < |lens| ==> 1 <= lens[i] <= |out|
    ensures |ReadAll(req, out, lens).req.data| <= |req.data| - Min(|lens|, |req.data|)
    ensures |lens| >= |req.data| ==> ReadAll(req, out, lens).req.data == []
    decreases |lens|
  {
    if |lens| > 0 {
      var first := Read(req, out, lens[0]);
      ReadAllProgress(first.req, first.out, lens[1..]);
    }
  }

  /**
   Reads until one returns 0, as `read_to_end` does, drawing each length from
   `rng`; yields the delivered bytes and the number of reads made.
   */
  function ReadToEnd(req: ServerRequest, out: Bytes, rng: Rng, draw: nat): (r: (Bytes, nat))
    requires |out| > 0 && ValidRng(rng)
    ensures r.0 == req.data
    ensures 1 <= r.1 <= |req.data| + 1
    decreases |req.data|
  {
    var first := Read(req, out, rng(draw, |out|));
    if first.n == 0 then ([], 1)
    else
      var tail := ReadToEnd(first.req, first.out, rng, draw + 1);
      ReadSplitsData(req, out, rng(draw, |out|));
      (first.out[..first.n] + tail.0, tail.1 + 1)
  }

  datatype WriteResult = WriteResult(buffer: HttpBuffer, n: nat)

  /**
   `HttpBuffer::write` of `input`, where `len` is the length drawn from
   `1..=input.len()`; it is irrelevant when `input` is empty.
   */
  function Write(hb: HttpBuffer, input: Bytes, len: nat): (r: WriteResult)
    requires |input| > 0 ==> 1 <= len <= |input|
    ensures |input| == 0 ==> r.n == 0 && r.buffer == hb
    ensures |input| > 0 ==> 1 <= r.n <= |input| && r.n == len
    ensures r.n <= |input| && |r.buffer.buf| == |hb.buf| + r.n
            && forall i :: 0 <= i < |r.buffer.buf| ==>
                 r.buffer.buf[i] == (if i < |hb.buf| then hb.buf[i] else input[i - |hb.buf|])
    ensures r.buffer.boundary == hb.boundary && r.buffer.contentLen == hb.contentLen
  {
    if |input| == 0 then WriteResult(hb, 0)
    else
      var chunk := input[..len];
      // `Vec<u8>` as `Write` appends the whole chunk and reports its length.
      WriteResult(HttpBuffer(hb.buf + chunk, hb.boundary, hb.contentLen), |chunk|)
  }

  /** One write leaves the old contents as a prefix and appends the first `n` input bytes. */
  lemma WriteAppends(hb: HttpBuffer, input: Bytes, len: nat)
    requires |input| > 0 ==> 1 <= len <= |input|
    ensures var r := Write(hb, input, len);
            r.n <= |input| && r.buffer.buf == hb.buf + input[..r.n] && hb.buf <= r.buffer.buf
  {
    var r := Write(hb, input, len);
    assert r.buffer.buf == hb.buf + input[..r.n];
  }

  /**
   The standard `write_all` loop over `Write`, drawing each length from `rng`;
   yields the final buffer and the number of writes made.
   */
  function WriteAll(hb: HttpBuffer, input: Bytes, rng: Rng, draw: nat): (r: (HttpBuffer, nat))
    requires ValidRng(rng)
    ensures r.0.buf == hb.buf + input
    ensures r.0.boundary == hb.boundary && r.0.contentLen == hb.contentLen
    ensures r.1 <= |input| && (|input| > 0 ==> r.1 >= 1)
    decreases |input|
  {
    if |input| == 0 then (hb, 0)
    else
      var first := Write(hb, input, rng(draw, |input|));
      WriteAppends(hb, input, rng(draw, |input|));
      var tail := WriteAll(first.buffer, input[first.n..], rng, draw + 1);
      assert input == input[..first.n] + input[first.n..];
      (tail.0, tail.1 + 1)
  }

  /**
   Bytes written into an empty buffer with any chunking and read back from
   `for_server` with any chunking arrive unchanged, with the boundary intact.
   */
  lemma TransportLossless(input: Bytes, boundary: string, contentLen: Option<u64>,
                          writer: Rng, reader: Rng, out: Bytes)
    requires ValidRng(writer) && ValidRng(reader) && |out| > 0
    ensures var req := ForServer(WriteAll(NewEmpty(boundary, contentLen), input, writer, 0).0);
            ReadToEnd(req, out, reader, 0).0 == input
            && MultipartBoundary(req) == Some(boundary)
            && req.contentLen == contentLen
  {
  }
}
