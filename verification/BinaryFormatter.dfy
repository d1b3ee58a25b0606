/** The readers and writers of catalina-binary-formatter.c on byte buffers, for a host of
    either byte order, each proved to produce or to decode the format of BinaryFormat. */
module BinaryFormatter {
  import opened Wrappers
  import opened Buffers
  import opened Integers
  import opened Values
  import opened BinaryFormat
  import opened BinaryFormatProofs

  /** g_malloc0. */
  method Zeroed(n: nat) returns (b: array<Byte>)
    ensures fresh(b) && b.Length == n
    ensures forall i :: 0 <= i < n ==> b[i] == 0
  {
    b := new Byte[n](_ => 0);
  }

  // ----- writers -----

  /** All the fixed-width writers: a tag and the value's memory image after GINT..._TO_BE. */
  method WriteInteger(h: Host, tag: Byte, n: nat, x: int) returns (buffer: array<Byte>)
    requires -(Pow256(n) as int) <= x
    ensures fresh(buffer) && buffer[..] == EncodeInteger(tag, n, x)
  {
    var beValue := SwapIfNeeded(h, n, ToUnsigned(n, x));
    buffer := Zeroed(1 + n);
    buffer[0] := tag;
    HostIndependence(h, n, ToUnsigned(n, x), BigEndian(n, 0));
    Memcpy(buffer, 1, InMemory(h, n, beValue));
  }

  method WriteBoolean(on: bool) returns (buffer: array<Byte>)
    ensures fresh(buffer) && buffer[..] == [TAG_BOOLEAN, if on then 1 else 0]
  {
    buffer := Zeroed(2);
    buffer[0] := TAG_BOOLEAN;
    buffer[1] := if on then 1 else 0;
  }

  /** The value is copied with its NUL; the length goes in last. */
  method WriteString(h: Host, value: Option<Bytes>) returns (buffer: array<Byte>)
    ensures fresh(buffer) && buffer[..] == EncodeString(TAG_STRING, value)
  {
    var content := if value.Some? then value.value + [0] else [];
    var length := |content|;
    buffer := Zeroed(5 + length);
    buffer[0] := TAG_STRING;
    StringPieces(buffer[..], content, BigEndian(4, length));
    hide BigEndian, EncodeString;
    Memcpy(buffer, 5, content);
    HostIndependence(h, 4, length, BigEndian(4, 0));
    Memcpy(buffer, 1, InMemory(h, 4, SwapIfNeeded(h, 4, length)));
  }

  lemma StringPieces(b: Bytes, content: Bytes, length: Bytes)
    requires |b| == 5 + |content| && |length| == 4
    ensures var c := b[..5] + content + b[5 + |content|..];
      c[..1] + length + c[5..] == [b[0]] + length + content
  {}

  /** write_double and write_float: a string whose tag is patched. */
  method WriteNumber(h: Host, tag: Byte, digits: Bytes) returns (buffer: array<Byte>)
    ensures fresh(buffer) && buffer[..] == EncodeString(tag, Some(digits))
  {
    buffer := WriteString(h, Some(digits));
    buffer[0] := tag;
  }

  datatype Chunk = Chunk(key: Bytes, value: Bytes)

  /** The chunks one behind the other, in list order. */
  function Flat(chunks: seq<Chunk>): Bytes {
    if chunks == [] then []
    else EncodeChunk(chunks[0].key, chunks[0].value) + Flat(chunks[1..])
  }

  lemma {:induction false} FlatAppend(cs: seq<Chunk>, c: Chunk)
    ensures Flat(cs + [c]) == Flat(cs) + EncodeChunk(c.key, c.value)
  {
    if cs == [] {
      assert cs + [c] == [c] && [c][1..] == [];
    } else {
      assert (cs + [c])[1..] == cs[1..] + [c];
      FlatAppend(cs[1..], c);
    }
  }

  lemma FlatFirst(c: Chunk, cs: seq<Chunk>)
    ensures Flat([c] + cs) == EncodeChunk(c.key, c.value) + Flat(cs)
  {
    assert ([c] + cs)[1..] == cs;
  }

  lemma ChunkPieces(front: Bytes, back: Bytes, c: Chunk)
    requires |EncodeChunk(c.key, c.value)| <= |back|
    ensures var first: Bytes, key, length := [(|c.key| + 1) % 256], c.key + [0], BigEndian(4, |c.value|);
      && |EncodeChunk(c.key, c.value)| == 1 + |key| + 4 + |c.value|
      && front + first + key + length + c.value == front + EncodeChunk(c.key, c.value)
      && back[1..][|key|..][4..][|c.value|..] == back[|EncodeChunk(c.key, c.value)|..]
  {}

  /** One round of the second pass: the one-byte key length, the key with its NUL, the
      big-endian value length and the value, each copied at the offset. */
  method CopyChunk(h: Host, buffer: array<Byte>, at: nat, c: Chunk, ghost front: Bytes, ghost back: Bytes)
    returns (offset: nat)
    requires at <= buffer.Length && buffer[..at] == front && buffer[at..] == back
    requires |EncodeChunk(c.key, c.value)| <= |back|
    modifies buffer
    ensures offset == at + |EncodeChunk(c.key, c.value)| <= buffer.Length
    ensures buffer[..offset] == front + EncodeChunk(c.key, c.value)
    ensures buffer[offset..] == back[|EncodeChunk(c.key, c.value)|..]
  {
    hide *;
    ghost var length := BigEndian(4, |c.value|);
    HostIndependence(h, 4, |c.value|, length);
    ChunkPieces(front, back, c);
    var first, key := [(|c.key| + 1) % 256], c.key + [0];
    offset := Append(buffer, at, first, front, back);
    offset := Append(buffer, offset, key, front + first, back[1..]);
    offset := Append(buffer, offset, InMemory(h, 4, SwapIfNeeded(h, 4, |c.value|)),
                     front + first + key, back[1..][|key|..]);
    offset := Append(buffer, offset, c.value, front + first + key + length, back[1..][|key|..][4..]);
  }

  lemma PropsGrow(reg: Registry, ps: seq<Property>, vs: seq<Value>, i: nat)
    requires |ps| == |vs| && AllWellFormed(reg, ps, vs) && i < |vs|
    ensures AllWellFormed(reg, ps[..i], vs[..i]) && AllWellFormed(reg, ps[..i + 1], vs[..i + 1])
    ensures WellFormed(reg, vs[i])
    ensures |EncodeProps(reg, ps[..i + 1], vs[..i + 1])| ==
      |EncodeProps(reg, ps[..i], vs[..i])| + |EncodeProp(reg, ps[i], vs[i])|
    ensures |EncodeProps(reg, ps[..i + 1], vs[..i + 1])| <= |EncodeProps(reg, ps, vs)|
    decreases |vs| - i
  {
    hide EncodeProp, EncodeProps, WellFormed, AllWellFormed;
    EncodePropsNext(reg, ps, vs, i);
    if i + 1 < |vs| {
      PropsGrow(reg, ps, vs, i + 1);
    } else {
      assert ps[..i + 1] == ps && vs[..i + 1] == vs;
    }
  }

  /** `Overflow`: the code writes outside a buffer whose size it counted in 32 bits. */
  datatype Status = Success | Failure | Overflow

  /** How writing ends, and with which bytes, if `e` is the encoding. */
  predicate IsWritten(e: Option<Bytes>, status: Status, bytes: Bytes) {
    match e
    case None => status.Failure?
    case Some(b) => if |b| < LIMIT32 then status.Success? && bytes == b else status.Overflow?
  }

  /** The first pass: collects the chunks, each new one in front, and adds up the size in 32
      bits.  Not ok if writing one of the values has left its buffer. */
  method CollectChunks(h: Host, reg: Registry, ps: seq<Property>, vs: seq<Value>, headerLength: nat)
    returns (ok: bool, chunks: seq<Chunk>, total: nat)
    requires |ps| == |vs| && AllWellFormed(reg, ps, vs) && headerLength < LIMIT32
    requires forall i :: 0 <= i < |vs| ==> TextsFit(vs[i])
    ensures ok ==> Flat(chunks) == EncodeProps(reg, ps, vs)
    ensures ok ==> total == Low(headerLength + |EncodeProps(reg, ps, vs)|)
    ensures !ok ==> |EncodeProps(reg, ps, vs)| >= LIMIT32
    decreases vs, 0
  {
    hide EncodeProps, WellFormed, AllWellFormed, Encode, EncodeChunk, Flat;
    ok := true;
    chunks := [];
    total := headerLength;
    NothingCollected(reg, ps, vs);
    hide Low;
    for i := 0 to |ps|
      invariant ok && AllWellFormed(reg, ps[..i], vs[..i])
      invariant Flat(chunks) == EncodeProps(reg, ps[..i], vs[..i])
      invariant total == Low(headerLength + |EncodeProps(reg, ps[..i], vs[..i])|)
    {
      PropsGrow(reg, ps, vs, i);
      EncodePropsNext(reg, ps, vs, i);
      if CanSerialize(ps[i].gtype) {
        var status, value := WriteValue(h, reg, vs[i]);
        if status.Overflow? {
          ChunkIsLonger(ps[i].name, Encode(reg, vs[i]).value);
          ok := false;
          return;
        }
        if status.Success? {
          var chunk := Chunk(ps[i].name, value[..]);
          FlatFirst(chunk, chunks);
          ChunkSize(chunk);
          chunks := [chunk] + chunks;
          LowSum(headerLength + |EncodeProps(reg, ps[..i], vs[..i])|, 1 + (|ps[i].name| + 1) + 4 + value.Length);
          total := Low(total + (1 + (|ps[i].name| + 1) + 4 + value.Length));
        }
      }
    }
    assert ps[..|ps|] == ps && vs[..|ps|] == vs;
  }

  lemma NothingCollected(reg: Registry, ps: seq<Property>, vs: seq<Value>)
    requires |ps| == |vs|
    ensures AllWellFormed(reg, ps[..0], vs[..0]) && EncodeProps(reg, ps[..0], vs[..0]) == [] == Flat([])
  {}

  lemma ChunkSize(c: Chunk)
    ensures |EncodeChunk(c.key, c.value)| == 1 + (|c.key| + 1) + 4 + |c.value|
  {}

  predicate AllZero(b: Bytes) {
    forall i :: 0 <= i < |b| ==> b[i] == 0
  }

  /** The second pass: copies the chunks behind the header.  The sentinel is the one byte of
      the zeroed buffer that is left. */
  method CopyChunks(h: Host, chunks: seq<Chunk>, header: Bytes, total: nat) returns (buffer: array<Byte>)
    requires total == |header| + |Flat(chunks)| + 1
    ensures fresh(buffer) && buffer[..] == header + Flat(chunks) + [0]
  {
    hide EncodeChunk, Flat;
    buffer := Zeroed(total);
    var offset := Append(buffer, 0, header, [], buffer[..]);
    ghost var copied := [];
    FlatNothing();
    for j := 0 to |chunks|
      invariant copied == Flat(chunks[..j])
      invariant copied + Flat(chunks[j..]) == Flat(chunks)
      invariant offset == |header| + |copied| < buffer.Length
      invariant buffer[..offset] == header + copied
      invariant AllZero(buffer[offset..])
    {
      var c := chunks[j];
      assert chunks[j..] == [c] + chunks[j + 1..] && chunks[..j + 1] == chunks[..j] + [c];
      FlatFirst(c, chunks[j + 1..]);
      FlatAppend(chunks[..j], c);
      ghost var chunk := EncodeChunk(c.key, c.value);
      assert header + copied + chunk == header + (copied + chunk);
      offset := CopyChunk(h, buffer, offset, c, header + copied, buffer[offset..]);
      copied := copied + chunk;
    }
    assert chunks[|chunks|..] == [] && chunks[..|chunks|] == chunks;
    assert buffer[..] == buffer[..offset] + buffer[offset..];
    assert buffer[offset..] == [0];
  }

  lemma FlatNothing()
    ensures Flat([]) == []
  {}

  /** When the sum of the sizes does not fit 32 bits the buffer is too small for them. */
  method WriteObject(h: Host, reg: Registry, t: Bytes, vs: seq<Value>) returns (status: Status, buffer: array<Byte>)
    requires WellFormed(reg, Object(t, vs)) && TextsFit(Object(t, vs))
    ensures fresh(buffer) && IsWritten(Encode(reg, Object(t, vs)), status, buffer[..])
    decreases vs, 1
  {
    hide EncodeProps, AllWellFormed, Flat;
    var nameLength := (|t| + 1) % 256;
    var header := [TAG_OBJECT, nameLength] + (t + [0])[..nameLength];
    var ok, chunks, total := CollectChunks(h, reg, reg[t], vs, |header|);
    buffer := new Byte[0];
    if !ok {
      return Overflow, buffer;
    }
    total := Low(total + 1);
    if total < |header| + |Flat(chunks)| + 1 {
      return Overflow, buffer;
    }
    status := Success;
    buffer := CopyChunks(h, chunks, header, total);
  }

  predicate IsInteger(v: Value) {
    v.Int? || v.UInt? || v.Long? || v.ULong? || v.Int64? || v.UInt64? || v.Char? || v.UChar?
  }

  method WriteIntegerValue(h: Host, reg: Registry, v: Value) returns (buffer: array<Byte>)
    requires IsInteger(v) && WellFormed(reg, v)
    ensures fresh(buffer) && Encode(reg, v) == Some(buffer[..])
  {
    hide EncodeProps, AllWellFormed, EncodeString, EncodeInteger, Pow256, EncodeHeader;
    match v
    case Int(x) => buffer := WriteInteger(h, TAG_INT, 4, x);
    case UInt(x) => buffer := WriteInteger(h, TAG_UINT, 4, x);
    case Long(x) => buffer := WriteInteger(h, TAG_LONG, 8, x);
    case ULong(x) => buffer := WriteInteger(h, TAG_ULONG, 8, x);
    case Int64(x) => buffer := WriteInteger(h, TAG_INT64, 8, x);
    case UInt64(x) => buffer := WriteInteger(h, TAG_UINT64, 8, x);
    case Char(x) => buffer := WriteInteger(h, TAG_CHAR, 1, x);
    case UChar(x) => buffer := WriteInteger(h, TAG_UCHAR, 1, x);
  }

  method WriteValue(h: Host, reg: Registry, v: Value) returns (status: Status, buffer: array<Byte>)
    requires WellFormed(reg, v) && TextsFit(v)
    ensures fresh(buffer) && IsWritten(Encode(reg, v), status, buffer[..])
    decreases v, 2
  {
    hide EncodeProps, AllWellFormed, EncodeInteger, Pow256, EncodeHeader, BigEndian;
    status := Success;
    if IsInteger(v) {
      buffer := WriteIntegerValue(h, reg, v);
      IntegersAreShort(reg, v);
    } else if v.Str? {
      buffer := WriteString(h, v.text);
    } else if v.Boolean? {
      buffer := WriteBoolean(v.on);
    } else if v.Double? {
      buffer := WriteNumber(h, TAG_DOUBLE, v.digits);
    } else if v.Float? {
      buffer := WriteNumber(h, TAG_FLOAT, v.fdigits);
    } else if v.Object? {
      status, buffer := WriteObject(h, reg, v.typeName, v.props);
    } else {
      status := Failure;
      buffer := new Byte[0];
    }
  }

  lemma IntegersAreShort(reg: Registry, v: Value)
    requires IsInteger(v) && WellFormed(reg, v)
    ensures |Encode(reg, v).value| <= 9
  {
    hide BigEndian, Pow256;
  }

  /** The result of write_value is not looked at. */
  method RealSerialize(h: Host, reg: Registry, v: Value) returns (status: Status, buffer: array<Byte>)
    requires WellFormed(reg, v) && TextsFit(v)
    ensures fresh(buffer) && IsWritten(Some(Serialize(reg, v)), status, buffer[..])
  {
    hide Encode, WellFormed;
    var value;
    status, value := WriteValue(h, reg, v);
    buffer := new Byte[0];
    if status.Overflow? {
      return;
    }
    var tmp := if status.Success? then value[..] else [];
    var length := Low(2 + |tmp|);
    if length < 2 + |tmp| {
      status := Overflow;
      return;
    }
    status := Success;
    buffer := Zeroed(length);
    buffer[0] := 0x01;
    buffer[1] := 0x00;
    Memcpy(buffer, 2, tmp);
  }

  // ----- readers -----

  // A reader is given the buffer, the place where its value starts, and the length that the
  // value is said to have.

  /** All the fixed-width readers: length, tag, and GINT..._FROM_BE of the copied bytes. */
  method ReadInteger(h: Host, tag: Byte, n: nat, buffer: array<Byte>, lo: nat, len: nat) returns (r: Read<nat>)
    requires lo + len <= buffer.Length && lo < buffer.Length
    ensures r == if buffer[lo] == tag then DecodeInteger(buffer[lo..], len, n) else Fail
  {
    if len != 1 + n || buffer[lo] != tag {
      return Fail;
    }
    var copied := buffer[lo + 1..lo + 1 + n];
    HostIndependence(h, n, 0, copied);
    assert copied == buffer[lo..][1..len];
    return Ok(SwapIfNeeded(h, n, FromMemory(h, copied)));
  }

  /** read_string up to the copy of the content; the sum of the length field and 5 is
      taken in 32 bits. */
  method ReadContent(h: Host, buffer: array<Byte>, lo: nat, len: nat) returns (r: Read<Bytes>)
    requires lo + len <= buffer.Length && lo < buffer.Length < LIMIT32
    ensures r == if buffer[lo] == TAG_STRING then DecodeContent(buffer[lo..], len) else Fail
  {
    if buffer[lo] != TAG_STRING {
      return Fail;
    }
    if buffer.Length - lo < 5 {
      return Abort;
    }
    var copied := buffer[lo + 1..lo + 5];
    HostIndependence(h, 4, 0, copied);
    ghost var b := buffer[lo..];
    assert copied == b[1..5];
    assert len >= 5 ==> buffer[lo + 5..lo + len] == b[5..len];
    var length := SwapIfNeeded(h, 4, FromMemory(h, copied));
    if (length + 5) % LIMIT32 != len {
      return Fail;
    }
    if length + 5 > len {
      return Abort;
    }
    return Ok(buffer[lo + 5..lo + len]);
  }

  /** The reader of strings proper, for read_value. */
  method ReadString(h: Host, buffer: array<Byte>, lo: nat, len: nat) returns (r: Read<Value>)
    requires lo + len <= buffer.Length && lo < buffer.Length < LIMIT32 && buffer[lo] == TAG_STRING
    ensures r == DecodeString(buffer[lo..], len)
  {
    var content := ReadContent(h, buffer, lo, len);
    match content
    case Fail => return Fail;
    case Abort => return Abort;
    case Ok(c) =>
      if |c| == 0 {
        return Ok(Str(None));
      }
      var s := Strlen(c);
      match s {
        case None => return Abort;
        case Some(n) =>
          return Ok(if n + 1 == |c| then Str(Some(c[..n])) else Unset);
      }
  }

  /** strlen on a buffer, None when it would run over the end. */
  method Strlen(b: Bytes) returns (r: Option<nat>)
    ensures r.None? <==> CString(b).None?
    ensures r.Some? ==> r.value < |b| && CString(b) == Some(b[..r.value])
  {
    var i := 0;
    while i < |b|
      invariant i <= |b| && NoNul(b[..i])
    {
      if b[i] == 0 {
        assert b == b[..i] + [0] + b[i + 1..];
        CStringOf(b[..i], b[i + 1..]);
        return Some(i);
      }
      i := i + 1;
    }
    assert b[..i] == b;
    NoCString(b);
    return None;
  }

  lemma TagDoesNotMatter(b: Bytes, c: Bytes, len: nat)
    requires b != [] && c != [] && b[1..] == c[1..] && len <= |b|
    ensures DecodeContent(b, len) == DecodeContent(c, len) && DecodeNumber(b, len) == DecodeNumber(c, len)
  {
    assert |b| == 1 + |b[1..]| == |c|;
    assert |b| >= 5 ==> b[1..5] == b[1..][..4] && c[1..5] == c[1..][..4];
    if len >= 5 {
      SliceOfSlice(b, 1, 4, len - 1);
      SliceOfSlice(c, 1, 4, len - 1);
    }
  }

  /** read_double and read_float: they make a string of the buffer in place, read it, and
      put a tag back on every exit.  The tag they put back is their own, so the buffer
      is unchanged exactly when it had that tag. */
  method ReadNumber(h: Host, tag: Byte, buffer: array<Byte>, lo: nat, len: nat) returns (r: Read<Bytes>)
    requires lo + len <= buffer.Length && lo < buffer.Length < LIMIT32
    modifies buffer
    ensures buffer[..] == old(buffer[..])[lo := tag]
    ensures r == DecodeNumber(old(buffer[lo..]), len)
  {
    ghost var was := buffer[lo..];
    buffer[lo] := TAG_STRING;
    ghost var now := buffer[lo..];
    assert was[1..] == now[1..];
    TagDoesNotMatter(was, now, len);
    var content := ReadContent(h, buffer, lo, len);
    match content {
      case Fail => r := Fail;
      case Abort => r := Abort;
      case Ok(c) =>
        var n := Strlen(c);
        r := if n.Some? then Ok(c[..n.value]) else Abort;
    }
    buffer[lo] := tag;
  }

  /** One round of read_object's loop, on a cursor that is not on a zero byte. */
  method ReadProp(h: Host, reg: Registry, ps: seq<Property>, vs: seq<Value>, buffer: array<Byte>, at: nat)
    returns (ok: bool, now: seq<Value>, cursor: nat)
    requires |ps| == |vs| && at < buffer.Length < LIMIT32 && buffer[at] != 0
    modifies buffer
    ensures buffer[..] == old(buffer[..]) && |now| == |ps|
    ensures !ok ==> DecodeProps(reg, ps, vs, old(buffer[at..])) == Abort
    ensures ok ==>
      && at < cursor <= buffer.Length
      && DecodeProps(reg, ps, vs, old(buffer[at..])) == DecodeProps(reg, ps, now, old(buffer[cursor..]))
      && PropsLength(old(buffer[at..])) == cursor - at + PropsLength(old(buffer[cursor..]))
    decreases buffer.Length - at, 0
  {
    hide Decode, DecodeProps, PropsLength, SetProperty;
    ok, now, cursor := false, vs, at;
    ghost var b := buffer[..];
    assert buffer[at..] == b[at..];
    DecodePropsOnce(reg, ps, vs, b[at..]);
    PropsLengthOnce(b[at..]);
    var hi := buffer.Length;
    var n: nat := buffer[at];
    if hi - at < 5 + n {
      return;
    }
    var name := buffer[at + 1..at + 1 + n];
    var copied := buffer[at + 1 + n..at + 5 + n];
    HostIndependence(h, 4, 0, copied);
    var valueLength := SwapIfNeeded(h, 4, FromMemory(h, copied));
    Slices(b, at, n, valueLength);
    if hi - at < 5 + n + valueLength {
      return;
    }
    assert buffer[at + 5 + n..] == b[at + 5 + n..];
    var v := ReadValue(h, reg, buffer, at + 5 + n, valueLength);
    if !v.Ok? {
      return;
    }
    var s := Strlen(name);
    if s.None? {
      return;
    }
    ok := true;
    now := SetProperty(ps, vs, name[..s.value], v.value);
    cursor := at + 5 + n + valueLength;
  }

  /** read_object's loop: reads properties until the cursor is on a zero byte, and returns
      where that is. */
  method ReadProps(h: Host, reg: Registry, ps: seq<Property>, defaults: seq<Value>, buffer: array<Byte>, lo: nat)
    returns (r: Read<seq<Value>>, cursor: nat)
    requires |ps| == |defaults| && lo <= buffer.Length < LIMIT32
    modifies buffer
    ensures buffer[..] == old(buffer[..])
    ensures r == DecodeProps(reg, ps, defaults, old(buffer[lo..]))
    ensures r.Ok? ==>
      && cursor < buffer.Length && buffer[cursor] == 0
      && cursor + 1 == lo + PropsLength(old(buffer[lo..]))
    decreases buffer.Length - lo, 1
  {
    hide Decode, DecodeProps, PropsLength, SetProperty;
    var vs := defaults;
    cursor := lo;
    ghost var b := buffer[..];
    assert buffer[lo..] == b[lo..];
    ghost var all := DecodeProps(reg, ps, defaults, b[lo..]);
    while cursor < buffer.Length && buffer[cursor] != 0
      invariant lo <= cursor <= buffer.Length && buffer[..] == b && |vs| == |ps|
      invariant DecodeProps(reg, ps, vs, b[cursor..]) == all
      invariant cursor + PropsLength(b[cursor..]) == lo + PropsLength(b[lo..])
      decreases buffer.Length - cursor
    {
      assert buffer[cursor..] == b[cursor..];
      var ok, now, next := ReadProp(h, reg, ps, vs, buffer, cursor);
      if !ok {
        return Abort, cursor;
      }
      assert old(buffer[next..]) == b[next..];
      vs, cursor := now, next;
    }
    DecodePropsEnd(reg, ps, vs, b[cursor..]);
    r := if cursor < buffer.Length then Ok(vs) else Abort;
  }

  lemma SliceOfSlice(b: Bytes, lo: nat, i: nat, j: nat)
    requires lo + j <= |b| && i <= j
    ensures b[lo..][i..j] == b[lo + i..lo + j]
    ensures b[lo..][j..] == b[lo + j..]
  {}

  lemma Slices(b: Bytes, at: nat, n: nat, len: nat)
    requires at + 5 + n <= |b|
    ensures var c := b[at..];
      && c[1..1 + n] == b[at + 1..at + 1 + n]
      && c[1 + n..5 + n] == b[at + 1 + n..at + 5 + n]
      && c[5 + n..] == b[at + 5 + n..]
      && (5 + n + len <= |c| ==> c[5 + n + len..] == b[at + 5 + n + len..])
  {
    SliceOfSlice(b, at, 1, 1 + n);
    SliceOfSlice(b, at, 1 + n, 5 + n);
    if at + 5 + n + len <= |b| {
      SliceOfSlice(b, at, 5 + n, 5 + n + len);
    }
  }

  lemma DecodePropsEnd(reg: Registry, ps: seq<Property>, vs: seq<Value>, c: Bytes)
    requires |ps| == |vs|
    ensures c == [] ==> DecodeProps(reg, ps, vs, c) == Abort
    ensures c != [] && c[0] == 0 ==> DecodeProps(reg, ps, vs, c) == Ok(vs) && PropsLength(c) == 1
  {}

  /** One round of the walk that only measures. */
  lemma PropsLengthOnce(c: Bytes)
    requires c != [] && c[0] != 0
    ensures var n: nat := c[0];
      |c| >= 5 + n ==>
        var len := 5 + n + BigEndianValue(c[1 + n..5 + n]);
        |c| >= len ==> PropsLength(c) == len + PropsLength(c[len..])
  {
    hide BigEndianValue;
  }

  /** The reader of objects does not look at the length it is given. */
  method ReadObject(h: Host, reg: Registry, buffer: array<Byte>, lo: nat) returns (r: Read<Value>)
    requires lo < buffer.Length < LIMIT32 && buffer[lo] == TAG_OBJECT
    modifies buffer
    ensures buffer[..] == old(buffer[..])
    ensures r == DecodeObject(reg, old(buffer[lo..]))
    decreases buffer.Length - lo, 2
  {
    hide DecodeProps, PropsLength;
    ghost var b := buffer[..];
    assert buffer[lo..] == b[lo..];
    if buffer.Length - lo < 2 {
      return Abort;
    }
    var n: nat := buffer[lo + 1];
    if buffer.Length - lo < 2 + n {
      return Abort;
    }
    if n == 0 {
      return Fail;
    }
    SliceOfSlice(b, lo, 2, 2 + n);
    var name := buffer[lo + 2..lo + 2 + n];
    assert name == b[lo..][2..2 + n];
    var s := Strlen(name);
    if s.None? {
      return Abort;
    }
    var t := name[..s.value];
    if t !in reg {
      return Fail;
    }
    assert buffer[lo + 2 + n..] == b[lo + 2 + n..];
    var vs, cursor := ReadProps(h, reg, reg[t], Defaults(reg[t]), buffer, lo + 2 + n);
    match vs
    case Ok(props) => r := Ok(Object(t, props));
    case Fail => r := Fail;
    case Abort => r := Abort;
  }

  method ReadIntegerValue(h: Host, buffer: array<Byte>, lo: nat, len: nat) returns (r: Read<Value>)
    requires lo + len <= buffer.Length && lo < buffer.Length
    requires buffer[lo] != TAG_BOOLEAN && buffer[lo] != TAG_DOUBLE && buffer[lo] != TAG_FLOAT
    requires buffer[lo] != TAG_STRING && buffer[lo] != TAG_OBJECT
    ensures forall reg :: r == Decode(reg, buffer[lo..], len)
  {
    hide DecodeInteger, DecodeObject, DecodeString, DecodeNumber, ToSigned;
    var tag := buffer[lo];
    if tag == TAG_INT64 || tag == TAG_UINT64 || tag == TAG_LONG || tag == TAG_ULONG {
      var u := ReadInteger(h, tag, 8, buffer, lo, len);
      r := Lift(u, (u: nat) =>
        if tag == TAG_INT64 then Int64(ToSigned(8, u)) else if tag == TAG_UINT64 then UInt64(u)
        else if tag == TAG_LONG then Long(ToSigned(8, u)) else ULong(u));
    } else if tag == TAG_INT || tag == TAG_UINT {
      var u := ReadInteger(h, tag, 4, buffer, lo, len);
      r := Lift(u, (u: nat) => if tag == TAG_INT then Int(ToSigned(4, u)) else UInt(u));
    } else if tag == TAG_SHORT || tag == TAG_USHORT {
      var u := ReadInteger(h, tag, 2, buffer, lo, len);
      r := Lift(u, (u: nat) => Int(if tag == TAG_SHORT then ToSigned(2, u) else u));
    } else if tag == TAG_CHAR || tag == TAG_UCHAR {
      var u := ReadInteger(h, tag, 1, buffer, lo, len);
      r := Lift(u, (u: nat) => if tag == TAG_CHAR then Char(ToSigned(1, u)) else UChar(u));
    } else {
      r := Fail;
    }
  }

  /** Whatever the buffer holds, it is the same afterwards on every exit. */
  method ReadValue(h: Host, reg: Registry, buffer: array<Byte>, lo: nat, len: nat) returns (r: Read<Value>)
    requires lo + len <= buffer.Length < LIMIT32
    modifies buffer
    ensures buffer[..] == old(buffer[..])
    ensures r == Decode(reg, old(buffer[lo..]), len)
    decreases buffer.Length - lo, 3
  {
    hide DecodeInteger, DecodeObject, DecodeString, DecodeNumber, ToSigned;
    if lo == buffer.Length {
      return Abort;
    }
    var tag := buffer[lo];
    ghost var b := buffer[lo..];
    if tag == TAG_BOOLEAN {
      r := if len != 2 then Fail else Ok(Boolean(buffer[lo + 1] != 0));
    } else if tag == TAG_DOUBLE {
      var s := ReadNumber(h, TAG_DOUBLE, buffer, lo, len);
      r := match s case Ok(d) => Ok(Double(d)) case Fail => Fail case Abort => Abort;
    } else if tag == TAG_FLOAT {
      var s := ReadNumber(h, TAG_FLOAT, buffer, lo, len);
      r := match s case Ok(d) => Ok(Float(d)) case Fail => Fail case Abort => Abort;
    } else if tag == TAG_STRING {
      r := ReadString(h, buffer, lo, len);
    } else if tag == TAG_OBJECT {
      r := ReadObject(h, reg, buffer, lo);
    } else {
      r := ReadIntegerValue(h, buffer, lo, len);
    }
  }

  method RealDeserialize(h: Host, reg: Registry, buffer: array<Byte>) returns (r: Read<Value>)
    requires buffer.Length < LIMIT32
    modifies buffer
    ensures buffer[..] == old(buffer[..])
    ensures r == Deserialize(reg, old(buffer[..]))
  {
    hide Decode;
    if buffer.Length == 0 {
      return Abort;
    }
    if buffer[0] != 0x01 {
      return Fail;
    }
    if buffer.Length < 2 {
      return Abort;
    }
    assert buffer[2..] == buffer[..][2..];
    r := ReadValue(h, reg, buffer, 2, buffer.Length - 2);
  }

  /** The cross-endian promise: a value serialized on one host is read on any other as if it
      were on the same one, and comes back whenever its names do no harm. */
  method Transfer(writer: Host, reader: Host, reg: Registry, v: Value) returns (r: Read<Value>)
    requires NamedRegistry(reg) && WellFormed(reg, v) && TextsFit(v) && Writable(v)
    requires |Serialize(reg, v)| < LIMIT32
    ensures r == Reread(reg, v)
    ensures r == Ok(Restored(reg, v)) <==> ReadsWell(reg, v)
  {
    hide Serialize, Deserialize, WellFormed, TextsFit, Reread, Restored, ReadsWell, NamedRegistry;
    SerializeReads(reg, v);
    RereadExactly(reg, v);
    var status, buffer := RealSerialize(writer, reg, v);
    LengthOf(buffer);
    r := RealDeserialize(reader, reg, buffer);
  }

  lemma LengthOf(b: array<Byte>)
    ensures |b[..]| == b.Length
  {}
}
