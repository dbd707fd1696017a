/** The parts of PSR-7 requests, responses and body streams the middleware
    touches. Responses are immutable values; the body stream, mutable in PHP,
    is a value here that the handler returns updated. */
module Http {
  import opened Files
  import opened Wrappers

  /** A server request; only its URI path is consulted. */
  datatype Request = Request(path: string)

  /** A body stream: its bytes, the read/write position, and whether
      `rewind` and `write` are possible (PSR-7 throws `RuntimeException`
      otherwise). */
  datatype Stream = Stream(bytes: Bytes, pos: nat, seekable: bool, writable: bool)

  /** A response. An empty `reason` stands for the framework's standard
      reason phrase of `status`. */
  datatype Response = Response(
    status: int,
    reason: string,
    headers: map<string, string>,
    body: Stream)
  {
    /** `withStatus($code, $reason)`. */
    function WithStatus(code: int, phrase: string): (r: Response)
      ensures r.status == code && r.reason == phrase
      ensures r.headers == headers && r.body == body
    {
      this.(status := code, reason := phrase)
    }

    /** `withHeader($name, $value)`: replaces any previous value of `name`. */
    function WithHeader(name: string, value: string): (r: Response)
      ensures r.status == status && r.reason == reason && r.body == body
      ensures r.headers.Keys == headers.Keys + {name}
      ensures r.headers[name] == value
      ensures forall h :: h in headers && h != name ==> r.headers[h] == headers[h]
    {
      this.(headers := headers[name := value])
    }
  }

  /** A run of `n` zero bytes (what a stream holds between its end and a
      write past it). */
  function Zeros(n: nat): (z: Bytes)
    ensures |z| == n
    ensures forall i :: 0 <= i < n ==> z[i] == 0
  {
    seq(n, _ => 0)
  }

  /** The bytes after writing `data` at position `pos` of `bytes`: the write
      overwrites in place and extends the stream only as far as it must. */
  function Splice(bytes: Bytes, pos: nat, data: Bytes): (r: Bytes)
    ensures |r| == if pos + |data| > |bytes| then pos + |data| else |bytes|
    ensures r[pos..pos + |data|] == data
    ensures forall i :: 0 <= i < pos && i < |bytes| ==> r[i] == bytes[i]
    ensures forall i :: pos + |data| <= i < |bytes| ==> r[i] == bytes[i]
  {
    var before := if pos <= |bytes| then bytes[..pos] else bytes + Zeros(pos - |bytes|);
    var after := if pos + |data| < |bytes| then bytes[pos + |data|..] else [];
    before + data + after
  }

  /** `rewind()`: None when the stream is not seekable. */
  function Rewind(s: Stream): (r: Option<Stream>)
    ensures r.Some? <==> s.seekable
    ensures r.Some? ==> r.value == s.(pos := 0)
  {
    if s.seekable then Some(s.(pos := 0)) else None
  }

  /** `write($data)`: None when the stream is not writable. */
  function Write(s: Stream, data: Bytes): (r: Option<Stream>)
    ensures r.Some? <==> s.writable
    ensures r.Some? ==> r.value.bytes == Splice(s.bytes, s.pos, data)
    ensures r.Some? ==> r.value.pos == s.pos + |data|
  {
    if s.writable then Some(s.(bytes := Splice(s.bytes, s.pos, data), pos := s.pos + |data|))
    else None
  }

  /** Writing from position 0 puts `data` at the head of the stream; on a
      stream no longer than `data` the stream then holds exactly `data`. */
  lemma WriteAfterRewind(s: Stream, data: Bytes)
    requires s.seekable && s.writable
    ensures var w := Write(Rewind(s).value, data);
            w.Some? && w.value.bytes[..|data|] == data &&
            (|s.bytes| <= |data| ==> w.value.bytes == data)
  {
    var w := Write(Rewind(s).value, data).value;
    assert w.bytes[0..|data|] == data;
    if |s.bytes| <= |data| {
      assert w.bytes == w.bytes[0..|data|];
    }
  }
}
