/** The format of catalina-binary-formatter.c as an encoding and a decoding of byte
    strings.  `Abort` is where the C code leaves the buffer or calls g_error. */
module BinaryFormat {
  import opened Wrappers
  import opened Integers
  import opened Values

  const TAG_BOOLEAN: Byte := 1
  const TAG_INT64: Byte := 2
  const TAG_UINT64: Byte := 130
  const TAG_LONG: Byte := 3
  const TAG_ULONG: Byte := 131
  const TAG_INT: Byte := 4
  const TAG_UINT: Byte := 132
  const TAG_SHORT: Byte := 5
  const TAG_USHORT: Byte := 133
  const TAG_CHAR: Byte := 6
  const TAG_UCHAR: Byte := 134
  const TAG_DOUBLE: Byte := 7
  const TAG_FLOAT: Byte := 8
  const TAG_STRING: Byte := 14
  const TAG_OBJECT: Byte := 15

  datatype Read<+T> = Ok(value: T) | Fail | Abort

  // ----- encoding -----

  predicate CanSerialize(t: GType) {
    !t.TOther?
  }

  /** A tag, a 32-bit length and the bytes; a string's bytes include its NUL, and the
      NULL string has none. */
  function EncodeString(tag: Byte, s: Option<Bytes>): Bytes {
    var content := if s.Some? then s.value + [0] else [];
    [tag] + BigEndian(4, |content|) + content
  }

  function EncodeInteger(tag: Byte, n: nat, x: int): Bytes
    requires -(Pow256(n) as int) <= x
  {
    [tag] + BigEndian(n, ToUnsigned(n, x))
  }

  /** What write_value produces; None when it reports failure. */
  function Encode(reg: Registry, v: Value): Option<Bytes>
    requires WellFormed(reg, v)
    decreases v, 1
  {
    match v
    case Unset => None
    case Other(_) => None
    case Str(s) => Some(EncodeString(TAG_STRING, s))
    case Boolean(on) => Some([TAG_BOOLEAN, if on then 1 else 0])
    case Char(c) => Some(EncodeInteger(TAG_CHAR, 1, c))
    case UChar(c) => Some(EncodeInteger(TAG_UCHAR, 1, c))
    case Int(i) => Some(EncodeInteger(TAG_INT, 4, i))
    case UInt(u) => Some(EncodeInteger(TAG_UINT, 4, u))
    case Long(l) => Some(EncodeInteger(TAG_LONG, 8, l))
    case ULong(l) => Some(EncodeInteger(TAG_ULONG, 8, l))
    case Int64(i) => Some(EncodeInteger(TAG_INT64, 8, i))
    case UInt64(u) => Some(EncodeInteger(TAG_UINT64, 8, u))
    case Double(s) => Some(EncodeString(TAG_DOUBLE, Some(s)))
    case Float(s) => Some(EncodeString(TAG_FLOAT, Some(s)))
    case NullObject => None
    case Object(t, vs) => Some(EncodeHeader(t) + EncodeProps(reg, reg[t], vs) + [0])
  }

  /** The length of the type name, NUL included, is cut to one byte, and so is the name. */
  function EncodeHeader(t: Bytes): Bytes {
    var n := (|t| + 1) % 256;
    [TAG_OBJECT, n] + (t + [0])[..n]
  }

  /** The name, its one-byte length first, and the encoded value, its 32-bit length first. */
  function EncodeChunk(name: Bytes, e: Bytes): Bytes {
    [(|name| + 1) % 256] + name + [0] + BigEndian(4, |e|) + e
  }

  /** A property that cannot be written is left out. */
  function EncodeProp(reg: Registry, p: Property, v: Value): Bytes
    requires WellFormed(reg, v)
    decreases v, 2
  {
    if CanSerialize(p.gtype) && Encode(reg, v).Some? then EncodeChunk(p.name, Encode(reg, v).value) else []
  }

  /** The properties are emitted last one first. */
  function EncodeProps(reg: Registry, ps: seq<Property>, vs: seq<Value>): Bytes
    requires |ps| == |vs| && AllWellFormed(reg, ps, vs)
    decreases vs, 0
  {
    if vs == [] then []
    else
      var n := |vs| - 1;
      EncodeProp(reg, ps[n], vs[n]) + EncodeProps(reg, ps[..n], vs[..n])
  }

  // ----- decoding -----

  /** The C string at the start of a buffer, if it ends within it. */
  function CString(b: Bytes): Option<Bytes> {
    if b == [] then None
    else if b[0] == 0 then Some([])
    else
      match CString(b[1..])
      case None => None
      case Some(s) => Some([b[0]] + s)
  }

  // Every reader is given the buffer from its value to the very end, `b`, and the length
  // that the value is said to have, `len`.

  /** The content of a string encoding whose tag has already been looked at. */
  function DecodeContent(b: Bytes, len: nat): Read<Bytes>
    requires b != [] && len <= |b|
  {
    if |b| < 5 then Abort
    else
      var n := BigEndianValue(b[1..5]);
      if n + 5 == len then Ok(b[5..len])
      else if (n + 5) % LIMIT32 == len then Abort
      else Fail
  }

  /** A string whose first NUL is not its last byte leaves the value uninitialised. */
  function DecodeString(b: Bytes, len: nat): Read<Value>
    requires b != [] && len <= |b|
  {
    match DecodeContent(b, len)
    case Fail => Fail
    case Abort => Abort
    case Ok(content) =>
      if content == [] then Ok(Str(None))
      else
        match CString(content)
        case None => Abort
        case Some(s) => if |s| + 1 == |content| then Ok(Str(Some(s))) else Ok(Unset)
  }

  /** The text that strtod is given. */
  function DecodeNumber(b: Bytes, len: nat): Read<Bytes>
    requires b != [] && len <= |b|
  {
    match DecodeContent(b, len)
    case Fail => Fail
    case Abort => Abort
    case Ok(content) =>
      match CString(content)
      case None => Abort
      case Some(s) => Ok(s)
  }

  function DecodeInteger(b: Bytes, len: nat, n: nat): Read<nat>
    requires len <= |b|
  {
    if len != 1 + n then Fail else Ok(BigEndianValue(b[1..len]))
  }

  function Lift(r: Read<nat>, f: nat -> Value): Read<Value> {
    match r
    case Fail => Fail
    case Abort => Abort
    case Ok(u) => Ok(f(u))
  }

  /** What read_value makes of a buffer.  It looks at the tag whatever the length is, and the
      reader of objects does not look at the length at all. */
  function Decode(reg: Registry, b: Bytes, len: nat): Read<Value>
    requires len <= |b|
    decreases |b|, 1
  {
    if b == [] then Abort
    else if b[0] == TAG_BOOLEAN then
      if len != 2 then Fail else Ok(Boolean(b[1] != 0))
    else if b[0] == TAG_INT64 then Lift(DecodeInteger(b, len, 8), (u: nat) => Int64(ToSigned(8, u)))
    else if b[0] == TAG_UINT64 then Lift(DecodeInteger(b, len, 8), (u: nat) => UInt64(u))
    else if b[0] == TAG_LONG then Lift(DecodeInteger(b, len, 8), (u: nat) => Long(ToSigned(8, u)))
    else if b[0] == TAG_ULONG then Lift(DecodeInteger(b, len, 8), (u: nat) => ULong(u))
    else if b[0] == TAG_INT then Lift(DecodeInteger(b, len, 4), (u: nat) => Int(ToSigned(4, u)))
    else if b[0] == TAG_UINT then Lift(DecodeInteger(b, len, 4), (u: nat) => UInt(u))
    else if b[0] == TAG_SHORT then Lift(DecodeInteger(b, len, 2), (u: nat) => Int(ToSigned(2, u)))
    else if b[0] == TAG_USHORT then Lift(DecodeInteger(b, len, 2), (u: nat) => Int(u))
    else if b[0] == TAG_CHAR then Lift(DecodeInteger(b, len, 1), (u: nat) => Char(ToSigned(1, u)))
    else if b[0] == TAG_UCHAR then Lift(DecodeInteger(b, len, 1), (u: nat) => UChar(u))
    else if b[0] == TAG_DOUBLE then
      match DecodeNumber(b, len) case Ok(s) => Ok(Double(s)) case Fail => Fail case Abort => Abort
    else if b[0] == TAG_FLOAT then
      match DecodeNumber(b, len) case Ok(s) => Ok(Float(s)) case Fail => Fail case Abort => Abort
    else if b[0] == TAG_STRING then DecodeString(b, len)
    else if b[0] == TAG_OBJECT then DecodeObject(reg, b)
    else Fail
  }

  function DecodeObject(reg: Registry, b: Bytes): Read<Value>
    requires b != []
    decreases |b|, 0
  {
    if |b| < 2 then Abort
    else
      var n: nat := b[1];
      if |b| < 2 + n then Abort
      else if n == 0 then Fail
      else
        match CString(b[2..2 + n])
        case None => Abort
        case Some(t) =>
          if t !in reg then Fail
          else
            match DecodeProps(reg, reg[t], Defaults(reg[t]), b[2 + n..])
            case Ok(vs) => Ok(Object(t, vs))
            case Fail => Fail
            case Abort => Abort
  }

  /** Reads properties into an instance up to the sentinel, wherever it is. */
  function DecodeProps(reg: Registry, ps: seq<Property>, vs: seq<Value>, c: Bytes): Read<seq<Value>>
    requires |ps| == |vs|
    decreases |c|, 2
  {
    if c == [] then Abort
    else if c[0] == 0 then Ok(vs)
    else
      var n: nat := c[0];
      if |c| < 5 + n then Abort
      else
        var len := BigEndianValue(c[1 + n..5 + n]);
        if |c| < 5 + n + len then Abort
        else
          match Decode(reg, c[5 + n..], len)
          case Fail => Abort
          case Abort => Abort
          case Ok(v) =>
            match CString(c[1..1 + n])
            case None => Abort
            case Some(name) =>
              DecodeProps(reg, ps, SetProperty(ps, vs, name, v), c[5 + n + len..])
  }

  // ----- the formatter's interface -----

  /** A version byte, a flags byte, and whatever write_value left, also when it failed. */
  function Serialize(reg: Registry, v: Value): Bytes
    requires WellFormed(reg, v)
  {
    [1, 0] + match Encode(reg, v) case Some(e) => e case None => []
  }

  function Deserialize(reg: Registry, b: Bytes): Read<Value> {
    if b == [] then Abort
    else if b[0] != 1 then Fail
    else if |b| < 2 then Abort
    else Decode(reg, b[2..], |b| - 2)
  }
}
