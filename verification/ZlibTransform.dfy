/** The transform of catalina-zlib-transform.c around an opaque compressor: the watermark,
    the tail, the collection of the compressed stream in chunks and its reassembly. */
module ZlibTransform {
  import opened Wrappers
  import opened Buffers
  import opened Integers

  const CHUNK := 16384

  /** The compressor: `deflate` is the whole stream for an input, `inflate` the whole
      output for a complete stream and None for anything else. */
  datatype Codec = Codec(deflate: Bytes -> Bytes, inflate: Bytes -> Option<Bytes>)

  /** Streams can be inflated, and a stream that has been cut off has no end. */
  ghost predicate GoodCodec(codec: Codec) {
    && (forall x: Bytes :: codec.inflate(codec.deflate(x)) == Some(x))
    && (forall x: Bytes, n: nat :: n < |codec.deflate(x)| ==> codec.inflate(codec.deflate(x)[..n]) == None)
  }

  /** `Abort`: the code calls g_error, or leaves its buffer. */
  datatype Outcome = Output(bytes: Bytes) | InitFailed | Abort

  // ----- what the transform does -----

  /** `avail_in` takes 32 bits of the input's length: only so much is compressed. */
  function Compressed(codec: Codec, input: Bytes): Bytes {
    codec.deflate(input[..|input| % LIMIT32])
  }

  /** Input up to the watermark is followed by a zero byte; anything longer is compressed
      and followed by its own 32-bit length and a one.  The length of the stream is counted
      in 32 bits, and when there is no room for the tail in them it lands in front of
      the buffer. */
  function Written(codec: Codec, watermark: nat, input: Bytes): Outcome {
    if |input| <= watermark then Output(input + [0])
    else
      var stream := Compressed(codec, input);
      var length := |stream| % LIMIT32;
      if length + 5 >= LIMIT32 then Abort
      else Output(stream[..length] + BigEndian(4, |input|) + [1])
  }

  /** Inflating into a buffer of `length` bytes: a longer output does not reach the end of
      the stream, which aborts; what a shorter one leaves of the buffer is taken as zeros.
      A buffer of no bytes is NULL, which inflate refuses. */
  function InflateInto(codec: Codec, stream: Bytes, length: nat): Outcome {
    match codec.inflate(stream)
    case None => Abort
    case Some(x) => if length > 0 && |x| <= length then Output(x + Zeros(length - |x|)) else Abort
  }

  function Zeros(n: nat): (b: Bytes)
    ensures |b| == n
  {
    if n == 0 then [] else [0] + Zeros(n - 1)
  }

  function ReadBack(codec: Codec, input: Bytes): Outcome {
    var n := |input|;
    if n == 0 then Abort
    else if input[n - 1] == 0 then Output(input[..n - 1])
    else if n < 5 then Abort
    else InflateInto(codec, input[..(n - 5) % LIMIT32], BigEndianValue(input[n - 5..n - 1]))
  }

  /** Writing and reading when deflateInit and inflateInit succeed or fail; neither is needed
      for plain data. */
  function WrittenIf(codec: Codec, watermark: nat, initOk: bool, input: Bytes): Outcome {
    if |input| <= watermark || initOk then Written(codec, watermark, input) else InitFailed
  }

  function ReadBackIf(codec: Codec, initOk: bool, input: Bytes): Outcome {
    if input == [] || input[|input| - 1] == 0 || initOk then ReadBack(codec, input) else InitFailed
  }

  function ThereAndBack(codec: Codec, watermark: nat, x: Bytes): Outcome {
    match Written(codec, watermark, x)
    case Output(w) => ReadBack(codec, w)
    case InitFailed => InitFailed
    case Abort => Abort
  }

  lemma {:induction false} BigEndianIsModular(n: nat, x: nat)
    ensures BigEndianValue(BigEndian(n, x)) == x % Pow256(n)
  {
    if n > 0 {
      BigEndianIsModular(n - 1, x / 256);
      var b := BigEndian(n, x);
      assert b[..|b| - 1] == BigEndian(n - 1, x / 256);
      ModSplit(x, Pow256(n - 1));
    }
  }

  lemma ModSplit(x: nat, p: nat)
    requires p > 0
    ensures x % (256 * p) == 256 * (x / 256 % p) + x % 256
  {
    var q, r := x / 256, x % 256;
    var a, b := q / p, q % p;
    assert q == p * a + b;
    assert x == 256 * (p * a + b) + r == (256 * p) * a + (256 * b + r);
    assert 256 * b + r < 256 * p;
    UniqueQuotient(x, 256 * p, a, 256 * b + r);
  }

  /** The stream of a compressed input, with its tail, can be counted in 32 bits. */
  predicate Fits(codec: Codec, watermark: nat, x: Bytes) {
    |x| <= watermark || |Compressed(codec, x)| + 5 < LIMIT32
  }

  /** Reading what was written, for inputs of any length: plain input comes back; of
      compressed input with a stream that fits comes back as much as its length says in 32
      bits, without any error; all else aborts. */
  lemma ReadsBackLow32(codec: Codec, watermark: nat, x: Bytes)
    requires GoodCodec(codec)
    ensures ThereAndBack(codec, watermark, x) ==
      if |x| <= watermark then Output(x)
      else if !Fits(codec, watermark, x) || |x| % LIMIT32 == 0 then Abort
      else Output(x[..|x| % LIMIT32])
  {
    hide InflateInto;
    if |x| <= watermark {
      assert (x + [0])[..|x|] == x;
    } else {
      var stream := Compressed(codec, x);
      var length := |stream| % LIMIT32;
      if length + 5 < LIMIT32 {
        ReadCompressed(codec, stream[..length], |x|);
        StreamInflates(codec, x[..|x| % LIMIT32], length);
      }
    }
  }

  /** A compressed buffer is taken apart into its stream and its length. */
  lemma ReadCompressed(codec: Codec, stream: Bytes, n: nat)
    requires |stream| < LIMIT32
    ensures ReadBack(codec, stream + BigEndian(4, n) + [1]) == InflateInto(codec, stream, n % LIMIT32)
  {
    hide InflateInto, BigEndian, BigEndianValue, Pow256;
    BigEndianIsModular(4, n);
    Pow256Values();
    var w := stream + BigEndian(4, n) + [1];
    assert w[|w| - 1] == 1 && w[..|w| - 5] == stream;
    assert w[|w| - 5..|w| - 1] == BigEndian(4, n);
  }

  /** A whole stream gives back its input, and a cut one aborts. */
  lemma StreamInflates(codec: Codec, x: Bytes, length: nat)
    requires GoodCodec(codec) && length == |codec.deflate(x)| % LIMIT32
    ensures InflateInto(codec, codec.deflate(x)[..length], |x|) ==
      if |codec.deflate(x)| >= LIMIT32 || x == [] then Abort else Output(x)
  {
    var stream := codec.deflate(x);
    assert Zeros(0) == [] && x + [] == x;
    if |stream| < LIMIT32 {
      assert stream[..length] == stream;
    }
  }

  /** So an input comes back exactly when it was not compressed, or it and its stream have
      lengths that fit 32 bits. */
  lemma RoundTripExactly(codec: Codec, watermark: nat, x: Bytes)
    requires GoodCodec(codec)
    ensures ThereAndBack(codec, watermark, x) == Output(x) <==>
      |x| <= watermark || (|x| < LIMIT32 && |codec.deflate(x)| + 5 < LIMIT32)
  {
    ReadsBackLow32(codec, watermark, x);
    if |x| < LIMIT32 {
      assert x[..|x| % LIMIT32] == x;
    }
  }

  /** When writing succeeds: plain data always, compressed data if deflateInit does and the
      32-bit length of its stream leaves room for the tail. */
  lemma WritesExactly(codec: Codec, watermark: nat, initOk: bool, x: Bytes)
    ensures var w := WrittenIf(codec, watermark, initOk, x);
      && (w.Output? <==> |x| <= watermark || (initOk && Low(|codec.deflate(x[..|x| % LIMIT32])|) + 5 < LIMIT32))
      && (w.InitFailed? <==> |x| > watermark && !initOk)
  {}

  /** What is written, from its end: the flag, the length of the input, and what they follow. */
  lemma WrittenLayout(codec: Codec, watermark: nat, x: Bytes)
    requires Written(codec, watermark, x).Output?
    ensures var w := Written(codec, watermark, x).bytes;
      var n := |w|;
      if |x| <= watermark then n == |x| + 1 && w[n - 1] == 0 && w[..n - 1] == x
      else
        var stream := codec.deflate(x[..|x| % LIMIT32]);
        && n == Low(|stream|) + 5 && w[n - 1] == 1
        && BigEndianValue(w[n - 5..n - 1]) == |x| % LIMIT32
        && w[..n - 5] == stream[..Low(|stream|)]
  {
    if |x| > watermark {
      var stream := Compressed(codec, x);
      hide Compressed, BigEndian, BigEndianValue, Pow256;
      BigEndianIsModular(4, |x|);
      Pow256Values();
      var w := Written(codec, watermark, x).bytes;
      assert w == stream[..|stream| % LIMIT32] + BigEndian(4, |x|) + [1];
      assert w[|w| - 5..|w| - 1] == BigEndian(4, |x|);
    }
  }

  /** What is read from any compressed buffer has the length that the buffer names, and starts
      with what there is in the stream, of whose length 32 bits are looked at. */
  lemma ReadLength(codec: Codec, input: Bytes)
    requires input != [] && input[|input| - 1] != 0
    ensures ReadBack(codec, input).Output? ==>
      var b := ReadBack(codec, input).bytes;
      && |input| >= 5 && |b| == BigEndianValue(input[|input| - 5..|input| - 1]) > 0
      && var x := codec.inflate(input[..Low(|input| - 5)]);
         x.Some? && x.value <= b
  {
    hide BigEndianValue;
  }

  // ----- the compressed stream in chunks -----

  /** The output side of a z_stream that has been given all its input. */
  class ZStream {
    var remaining: Bytes        // what deflate has still to emit
    var availOut: nat

    constructor (output: Bytes)
      ensures remaining == output && availOut == 0
    {
      remaining := output;
      availOut := 0;
    }

    /** One call of deflate with Z_FINISH: it emits as many bytes as fit. */
    method Deflate(part: array<Byte>)
      requires part.Length == CHUNK
      modifies this, part
      ensures var have := if |old(remaining)| < CHUNK then |old(remaining)| else CHUNK;
        && availOut == CHUNK - have
        && part[..have] == old(remaining)[..have]
        && remaining == old(remaining)[have..]
    {
      var have := if |remaining| < CHUNK then |remaining| else CHUNK;
      forall i | 0 <= i < have {
        part[i] := remaining[i];
      }
      availOut := CHUNK - have;
      remaining := remaining[have..];
    }
  }

  function Reversed<T>(s: seq<T>): seq<T> {
    if s == [] then [] else Reversed(s[1..]) + [s[0]]
  }

  lemma ReversedPrepend<T>(x: T, s: seq<T>)
    ensures Reversed([x] + s) == Reversed(s) + [x]
  {
    assert ([x] + s)[1..] == s;
  }

  /** Full chunks of the stream, one behind the other from its start. */
  ghost predicate AllFull(parts: seq<Bytes>, stream: Bytes) {
    && CHUNK * |parts| <= |stream|
    && forall i :: 0 <= i < |parts| ==> parts[i] == stream[CHUNK * i..][..CHUNK]
  }

  /** The chunks hold the stream: every one but the last is full, and the last one is
      not, so it is empty when the stream is a multiple of the chunk size. */
  ghost predicate Chunked(parts: seq<Bytes>, stream: Bytes) {
    && |parts| > 0
    && AllFull(parts[..|parts| - 1], stream)
    && var last := parts[|parts| - 1];
       var rest := stream[CHUNK * (|parts| - 1)..];
       |last| == CHUNK && |rest| < CHUNK && last[..|rest|] == rest
  }

  lemma FullAppend(parts: seq<Bytes>, part: Bytes, stream: Bytes)
    requires AllFull(parts, stream) && CHUNK * |parts| + CHUNK <= |stream|
    requires part == stream[CHUNK * |parts|..][..CHUNK]
    ensures AllFull(parts + [part], stream)
  {}

  lemma LastAppend(parts: seq<Bytes>, part: Bytes, stream: Bytes)
    requires AllFull(parts, stream) && |part| == CHUNK
    requires var rest := stream[CHUNK * |parts|..]; |rest| < CHUNK && part[..|rest|] == rest
    ensures Chunked(parts + [part], stream)
  {
    var all := parts + [part];
    assert all[..|all| - 1] == parts && all[|all| - 1] == part;
  }

  /** The chunks collected from the first `emitted` bytes of the stream, newest first. */
  ghost predicate ChunksSoFar(parts: seq<Bytes>, stream: Bytes, emitted: nat, more: bool) {
    if more then emitted == CHUNK * |Reversed(parts)| && AllFull(Reversed(parts), stream)
    else emitted == |stream| && Chunked(Reversed(parts), stream)
  }

  /** How much of a chunk the next call of deflate fills. */
  function NextHave(left: nat): nat {
    if left < CHUNK then left else CHUNK
  }

  /** One more chunk, as full as what is left of the stream allows. */
  lemma OneMore(parts: seq<Bytes>, part: Bytes, stream: Bytes, emitted: nat)
    requires AllFull(Reversed(parts), stream) && emitted == CHUNK * |Reversed(parts)|
    requires emitted <= |stream| && |part| == CHUNK
    requires var have := NextHave(|stream| - emitted); part[..have] == stream[emitted..][..have]
    ensures ChunksSoFar([part] + parts, stream, emitted + NextHave(|stream| - emitted), |stream| - emitted >= CHUNK)
  {
    hide AllFull, Chunked, Reversed;
    ReversedPrepend(part, parts);
    if |stream| - emitted >= CHUNK {
      FullAppend(Reversed(parts), part, stream);
    } else {
      LastAppend(Reversed(parts), part, stream);
    }
  }

  /** The body of the loop: one chunk is allocated, filled and put in front. */
  method CollectOne(strm: ZStream, parts: seq<Bytes>, ghost stream: Bytes, ghost emitted: nat)
    returns (now: seq<Bytes>, have: nat)
    requires emitted <= |stream| && strm.remaining == stream[emitted..]
    requires ChunksSoFar(parts, stream, emitted, true)
    modifies strm
    ensures have == NextHave(|stream| - emitted) && strm.availOut == CHUNK - have
    ensures strm.remaining == stream[emitted + have..]
    ensures ChunksSoFar(now, stream, emitted + have, have == CHUNK)
  {
    hide AllFull, Chunked, Reversed;
    var part := new Byte[CHUNK];
    strm.Deflate(part);
    have := CHUNK - strm.availOut;
    assert stream[emitted..][have..] == stream[emitted + have..];
    OneMore(parts, part[..], stream, emitted);
    now := [part[..]] + parts;
  }

  lemma NoChunksYet(stream: Bytes)
    ensures stream[0..] == stream && ChunksSoFar([], stream, 0, true)
  {}

  lemma AllChunks(parts: seq<Bytes>, stream: Bytes, emitted: nat)
    requires ChunksSoFar(parts, stream, emitted, false)
    ensures emitted == |stream| && Chunked(Reversed(parts), stream)
  {}

  lemma HaveAtMost(left: nat)
    ensures NextHave(left) <= left && NextHave(left) <= CHUNK && (NextHave(left) < CHUNK ==> NextHave(left) == left)
  {}

  /** The do-while loop: chunks are collected, newest first, as long as the compressor
      fills them.  Of how much of each is used only the sum is kept, in 32 bits. */
  method CollectParts(strm: ZStream) returns (parts: seq<Bytes>, length: nat)
    modifies strm
    ensures Chunked(Reversed(parts), old(strm.remaining))
    ensures length == Low(|old(strm.remaining)|)
  {
    ghost var stream := strm.remaining;
    ghost var emitted: nat := 0;
    parts := [];
    length := 0;
    var more := true;
    NoChunksYet(stream);
    hide AllFull, Chunked, Reversed, ChunksSoFar, NextHave, Low;
    while more
      invariant emitted <= |stream| && strm.remaining == stream[emitted..]
      invariant length == Low(emitted)
      invariant ChunksSoFar(parts, stream, emitted, more)
      decreases more, |stream| - emitted
    {
      LowSum(emitted, NextHave(|stream| - emitted));
      HaveAtMost(|stream| - emitted);
      var have;
      parts, have := CollectOne(strm, parts, stream, emitted);
      emitted := emitted + have;
      length := Low(length + have);
      more := strm.availOut == 0;
    }
    AllChunks(parts, stream, emitted);
  }

  /** The first `offset` bytes of the wanted ones are in place, and the tail is untouched. */
  ghost predicate Gathered(output: Bytes, wanted: Bytes, tail: Bytes, offset: nat) {
    && offset <= |wanted| && |output| == |wanted| + |tail|
    && output[..offset] == wanted[..offset]
    && output[|wanted|..] == tail
  }

  method GatherOne(part: Bytes, have: nat, output: array<Byte>, at: nat, ghost wanted: Bytes, ghost tail: Bytes)
    returns (offset: nat)
    requires Gathered(output[..], wanted, tail, at) && at + have <= |wanted|
    requires have <= |part| && part[..have] == wanted[at..at + have]
    modifies output
    ensures offset == at + have && Gathered(output[..], wanted, tail, offset)
  {
    Memcpy(output, at, part[..have]);
    offset := at + have;
  }

  /** The gather loop: since every chunk but the last one is full, what is still missing
      says how much of each to copy, also when the length has lost its upper bits and
      there are more chunks than it asks for. */
  method GatherParts(parts: seq<Bytes>, length: nat, output: array<Byte>, ghost stream: Bytes)
    requires Chunked(parts, stream) && length <= |stream| && length <= output.Length
    modifies output
    ensures output[..] == stream[..length] + old(output[length..])
  {
    ghost var wanted, tail := stream[..length], output[length..];
    var offset := 0;
    var i := 0;
    assert Gathered(output[..], wanted, tail, 0);
    PartAt(parts, stream, 0);
    hide AllFull, Chunked, Gathered;
    while i < |parts|
      invariant i <= |parts| && 0 <= offset <= length
      invariant offset == if i == |parts| || length < CHUNK * i then length else CHUNK * i
      invariant Gathered(output[..], wanted, tail, offset)
      invariant 0 < i < |parts| ==> length > CHUNK
      decreases |parts| - i
    {
      PartAt(parts, stream, i);
      if length <= CHUNK {
        WantedPart(parts[0], stream, length, 0, length);
        offset := GatherOne(parts[0], length, output, 0, wanted, tail);
        i := |parts|;
      } else {
        var have := length - offset;
        if have > CHUNK {
          have := CHUNK;
        }
        if have > 0 {
          WantedPart(parts[i], stream, length, offset, have);
        }
        offset := GatherOne(parts[i], have, output, offset, wanted, tail);
        i := i + 1;
      }
    }
    AllGathered(output[..], wanted, tail);
  }

  lemma WantedPart(part: Bytes, stream: Bytes, length: nat, at: nat, have: nat)
    requires at + have <= length <= |stream| && have <= CHUNK == |part|
    requires var n := if |stream| - at > CHUNK then CHUNK else |stream| - at;
      part[..n] == stream[at..at + n]
    ensures part[..have] == stream[..length][at..at + have]
  {
    var n := if |stream| - at > CHUNK then CHUNK else |stream| - at;
    assert part[..have] == part[..n][..have] == stream[at..at + n][..have];
  }

  lemma AllGathered(output: Bytes, wanted: Bytes, tail: Bytes)
    requires Gathered(output, wanted, tail, |wanted|)
    ensures output == wanted + tail
  {
    assert output == output[..|wanted|] + output[|wanted|..];
    assert wanted[..|wanted|] == wanted;
  }

  /** The i-th chunk starts with the part of the stream that belongs to it. */
  lemma PartAt(parts: seq<Bytes>, stream: Bytes, i: nat)
    requires Chunked(parts, stream) && (i < |parts| || i == 0)
    ensures i < |parts|
    ensures CHUNK * i <= |stream| && |parts[i]| == CHUNK
    ensures var have := if |stream| - CHUNK * i > CHUNK then CHUNK else |stream| - CHUNK * i;
      parts[i][..have] == stream[CHUNK * i..CHUNK * i + have]
    ensures i + 1 < |parts| ==> CHUNK * (i + 1) <= |stream|
    ensures i + 1 == |parts| ==> |stream| - CHUNK * i < CHUNK
  {
    if i < |parts| - 1 {
      assert parts[..|parts| - 1][i] == parts[i];
    }
  }

  // ----- the transform's methods -----

  /** From the first call of deflate to the finished buffer; not ok when the length of
      the buffer wraps around, so that its tail lands in front of it. */
  method Gather(strm: ZStream, tail: Bytes) returns (ok: bool, output: array<Byte>)
    requires |tail| == 5
    modifies strm
    ensures fresh(output)
    ensures var stream := old(strm.remaining);
      var length := |stream| % LIMIT32;
      && (ok <==> length + 5 < LIMIT32)
      && (ok ==> output[..] == stream[..length] + tail)
  {
    hide AllFull, Chunked, Reversed;
    ghost var stream := strm.remaining;
    var parts, length := CollectParts(strm);
    var outputLength := Low(length + 5);
    output := new Byte[outputLength](_ => 0);
    ok := outputLength >= 5;
    if ok {
      Memcpy(output, length, tail);
      assert output[length..] == tail;
      GatherParts(Reversed(parts), length, output, stream);
    }
  }

  datatype Status = Success | Failure | Crash

  /** `initOk` is the result of deflateInit, which only a long input needs. */
  method RealWrite(codec: Codec, watermark: nat, initOk: bool, input: Bytes)
    returns (status: Status, output: array<Byte>)
    ensures fresh(output)
    ensures status.Failure? <==> |input| > watermark && !initOk
    ensures status.Success? <==>
      |input| <= watermark || (initOk && Low(|codec.deflate(input[..|input| % LIMIT32])|) + 5 < LIMIT32)
    ensures match WrittenIf(codec, watermark, initOk, input)
      case Output(b) => status.Success? && output[..] == b
      case InitFailed => status.Failure?
      case Abort => status.Crash?
  {
    status := Success;
    if |input| <= watermark {
      output := new Byte[|input| + 1](_ => 0);
      Memcpy(output, 0, input);
      return;
    }
    if !initOk {
      status := Failure;
      output := new Byte[0];
      return;
    }
    var strm := new ZStream(codec.deflate(input[..|input| % LIMIT32]));
    var ok;
    ok, output := Gather(strm, BigEndian(4, |input|) + [1]);
    status := if ok then Success else Crash;
  }

  /** `initOk` is the result of inflateInit. */
  method RealRead(codec: Codec, initOk: bool, input: Bytes) returns (r: Outcome)
    ensures r == ReadBackIf(codec, initOk, input)
    ensures r.InitFailed? <==> input != [] && input[|input| - 1] != 0 && !initOk
    ensures input != [] && input[|input| - 1] == 0 ==> r == Output(input[..|input| - 1])
  {
    var n := |input|;
    if n == 0 {
      return Abort;
    }
    if input[n - 1] == 0 {
      return Output(input[..n - 1]);
    }
    if !initOk {
      return InitFailed;
    }
    if n < 5 {
      return Abort;
    }
    var length := BigEndianValue(input[n - 5..n - 1]);
    return InflateInto(codec, input[..(n - 5) % LIMIT32], length);
  }
}
