/** Properties of the binary format: what is written is read back, encodings delimit
    themselves, and what is lost is exactly what cannot be written. */
module BinaryFormatProofs {
  import opened Wrappers
  import opened Integers
  import opened Values
  import opened BinaryFormat

  // ----- what comes back -----

  predicate Writable(v: Value) {
    !v.Unset? && !v.Other? && !v.NullObject?
  }

  /** The value after a round trip: properties that cannot be written get their defaults. */
  function Restored(reg: Registry, v: Value): Value
    requires WellFormed(reg, v)
    decreases v, 1
  {
    match v
    case Object(t, vs) => Object(t, RestoredProps(reg, reg[t], vs))
    case _ => v
  }

  function RestoredProps(reg: Registry, ps: seq<Property>, vs: seq<Value>): (r: seq<Value>)
    requires |ps| == |vs| && AllWellFormed(reg, ps, vs)
    ensures |r| == |vs|
    decreases vs, 0
  {
    if vs == [] then []
    else
      var n := |vs| - 1;
      RestoredProps(reg, ps[..n], vs[..n]) + [if Writable(vs[n]) then Restored(reg, vs[n]) else ps[n].default]
  }

  lemma {:induction false} PropAt(reg: Registry, ps: seq<Property>, vs: seq<Value>, i: nat)
    requires |ps| == |vs| && AllWellFormed(reg, ps, vs) && i < |vs|
    ensures WellFormed(reg, vs[i]) && TypeOf(vs[i]) == ps[i].gtype
    ensures RestoredProps(reg, ps, vs)[i] == if Writable(vs[i]) then Restored(reg, vs[i]) else ps[i].default
    decreases |vs|
  {
    var n := |vs| - 1;
    if i < n {
      PropAt(reg, ps[..n], vs[..n], i);
    }
  }

  lemma {:induction false} PrefixWellFormed(reg: Registry, ps: seq<Property>, vs: seq<Value>, k: nat)
    requires |ps| == |vs| && AllWellFormed(reg, ps, vs) && k <= |vs|
    ensures AllWellFormed(reg, ps[..k], vs[..k])
    decreases |vs|
  {
    if k == |vs| {
      assert ps[..k] == ps && vs[..k] == vs;
    } else {
      var n := |vs| - 1;
      PrefixWellFormed(reg, ps[..n], vs[..n], k);
      assert ps[..n][..k] == ps[..k] && vs[..n][..k] == vs[..k];
    }
  }

  /** write_value reports success exactly for the values that have an encoding. */
  lemma EncodeSucceeds(reg: Registry, v: Value)
    requires WellFormed(reg, v)
    ensures Encode(reg, v).Some? <==> Writable(v)
  {}

  // ----- pieces -----

  lemma {:induction false} CStringOf(s: Bytes, rest: Bytes)
    requires NoNul(s)
    ensures CString(s + [0] + rest) == Some(s)
  {
    var b := s + [0] + rest;
    if s == [] {
      assert b[0] == 0;
    } else {
      assert b[1..] == s[1..] + [0] + rest;
      CStringOf(s[1..], rest);
      assert s == [s[0]] + s[1..];
    }
  }

  lemma NameOf(name: Bytes)
    requires NoNul(name)
    ensures CString(name + [0]) == Some(name)
  {
    CStringOf(name, []);
    assert name + [0] + [] == name + [0];
  }

  lemma IntegerRoundTrip(tag: Byte, n: nat, x: int, rest: Bytes)
    requires FitsSigned(n, x) || 0 <= x < Pow256(n)
    ensures var r := DecodeInteger(EncodeInteger(tag, n, x) + rest, 1 + n, n);
      r.Ok? && (0 <= x ==> r.value == x) && (FitsSigned(n, x) ==> ToSigned(n, r.value) == x)
    ensures |EncodeInteger(tag, n, x)| == 1 + n && EncodeInteger(tag, n, x)[0] == tag
  {
    var u := ToUnsigned(n, x);
    BigEndianRoundTrip(n, u);
    var b := EncodeInteger(tag, n, x) + rest;
    assert b[1..1 + n] == BigEndian(n, u);
  }

  lemma ContentRoundTrip(tag: Byte, s: Option<Bytes>, rest: Bytes)
    requires |EncodeString(tag, s)| < LIMIT32
    ensures DecodeContent(EncodeString(tag, s) + rest, |EncodeString(tag, s)|) ==
      Ok(if s.Some? then s.value + [0] else [])
  {
    var content := if s.Some? then s.value + [0] else [];
    var len := |EncodeString(tag, s)|;
    var b := EncodeString(tag, s) + rest;
    Pow256Values();
    BigEndianRoundTrip(4, |content|);
    assert b[1..5] == BigEndian(4, |content|);
    assert b[5..len] == content;
  }

  lemma StringRoundTrip(s: Option<Bytes>, rest: Bytes)
    requires s.Some? ==> NoNul(s.value)
    requires |EncodeString(TAG_STRING, s)| < LIMIT32
    ensures DecodeString(EncodeString(TAG_STRING, s) + rest, |EncodeString(TAG_STRING, s)|) == Ok(Str(s))
  {
    ContentRoundTrip(TAG_STRING, s, rest);
    if s.Some? {
      NameOf(s.value);
    }
  }

  lemma NumberRoundTrip(tag: Byte, s: Bytes, rest: Bytes)
    requires NoNul(s) && |EncodeString(tag, Some(s))| < LIMIT32
    ensures DecodeNumber(EncodeString(tag, Some(s)) + rest, |EncodeString(tag, Some(s))|) == Ok(s)
  {
    ContentRoundTrip(tag, Some(s), rest);
    NameOf(s);
  }

  /** One round of DecodeProps. */
  lemma DecodePropsOnce(reg: Registry, ps: seq<Property>, vs: seq<Value>, c: Bytes)
    requires |ps| == |vs| && c != [] && c[0] != 0
    ensures var n: nat := c[0];
      if |c| < 5 + n then DecodeProps(reg, ps, vs, c) == Abort
      else
        var len := BigEndianValue(c[1 + n..5 + n]);
        if |c| < 5 + n + len then DecodeProps(reg, ps, vs, c) == Abort
        else
          var v := Decode(reg, c[5 + n..], len);
          var name := CString(c[1..1 + n]);
          if !v.Ok? || name.None? then DecodeProps(reg, ps, vs, c) == Abort
          else DecodeProps(reg, ps, vs, c) ==
                 DecodeProps(reg, ps, SetProperty(ps, vs, name.value, v.value), c[5 + n + len..])
  {
    hide Decode, SetProperty, CString, BigEndianValue;
  }

  /** Where the parts of a chunk are. */
  lemma ChunkSlices(name: Bytes, e: Bytes, rest: Bytes)
    requires ShortName(name)
    ensures var c := EncodeChunk(name, e) + rest;
      var n: nat := |name| + 1;
      && |c| == 5 + n + |e| + |rest| && c[0] == n
      && c[1..1 + n] == name + [0]
      && c[1 + n..5 + n] == BigEndian(4, |e|)
      && c[5 + n..] == e + rest
      && c[5 + n + |e|..] == rest
  {}

  /** One chunk: its value is read and stored, and the cursor ends up right behind it. */
  lemma ChunkRoundTrip(reg: Registry, ps: seq<Property>, vs: seq<Value>, name: Bytes, e: Bytes, rest: Bytes)
    requires |ps| == |vs| && ShortName(name) && |e| < LIMIT32
    ensures DecodeProps(reg, ps, vs, EncodeChunk(name, e) + rest) ==
      match Decode(reg, e + rest, |e|)
      case Ok(v) => DecodeProps(reg, ps, SetProperty(ps, vs, name, v), rest)
      case Fail => Abort
      case Abort => Abort
  {
    hide Decode, SetProperty, DecodeProps, EncodeChunk, BigEndian, BigEndianValue, CString, Pow256;
    ChunkSlices(name, e, rest);
    Pow256Values();
    BigEndianRoundTrip(4, |e|);
    NameOf(name);
    DecodePropsOnce(reg, ps, vs, EncodeChunk(name, e) + rest);
  }

  lemma HeaderOf(t: Bytes)
    requires |t| <= 254
    ensures EncodeHeader(t) == [TAG_OBJECT, |t| + 1] + t + [0]
  {
    assert (t + [0])[..|t| + 1] == t + [0];
  }

  lemma HeaderRoundTrip(reg: Registry, t: Bytes, body: Bytes)
    requires t in reg && ShortName(t)
    ensures DecodeObject(reg, EncodeHeader(t) + body) ==
      match DecodeProps(reg, reg[t], Defaults(reg[t]), body)
      case Ok(vs) => Ok(Object(t, vs))
      case Fail => Fail
      case Abort => Abort
  {
    hide DecodeProps, Defaults;
    HeaderOf(t);
    hide EncodeHeader;
    var b := EncodeHeader(t) + body;
    var n: nat := |t| + 1;
    assert b[1] == n && b[2..2 + n] == t + [0] && b[2 + n..] == body;
    NameOf(t);
  }

  // ----- names that do not fit -----

  lemma {:induction false} NoCString(s: Bytes)
    requires NoNul(s)
    ensures CString(s) == None
  {
    if s != [] {
      NoCString(s[1..]);
    }
  }

  /** The length of a name is cut to one byte.  A name of 255 bytes (modulo 256) looks like
      the sentinel: this property and all that follow are dropped in silence.  Any other
      name that does not fit makes the reader run over the end of the name. */
  lemma LongNames(reg: Registry, ps: seq<Property>, vs: seq<Value>, name: Bytes, e: Bytes, rest: Bytes)
    requires |ps| == |vs| && NoNul(name) && |name| > 254
    ensures DecodeProps(reg, ps, vs, EncodeChunk(name, e) + rest) ==
      if |name| % 256 == 255 then Ok(vs) else Abort
  {
    hide Decode, SetProperty;
    var c := EncodeChunk(name, e) + rest;
    var n: nat := c[0];
    if n != 0 {
      assert c[1..1 + n] == name[..n];
      NoCString(name[..n]);
    }
  }

  /** The length of a type name is cut to one byte as well, and the name with it: the
      reader finds no name at all or runs over the end of what there is of it. */
  lemma LongTypeNames(reg: Registry, t: Bytes, body: Bytes)
    requires NoNul(t) && |t| > 254
    ensures DecodeObject(reg, EncodeHeader(t) + body) == if |t| % 256 == 255 then Fail else Abort
  {
    hide DecodeProps;
    var b := EncodeHeader(t) + body;
    var n: nat := (|t| + 1) % 256;
    assert b[1] == n;
    if n != 0 {
      assert b[2..2 + n] == t[..n];
      NoCString(t[..n]);
    }
  }

  // ----- reading what was written, with names of any length -----

  /** What the reader makes of what the writer made of a value. */
  function Reread(reg: Registry, v: Value): Read<Value>
    requires WellFormed(reg, v)
    decreases v, 1
  {
    match v
    case Object(t, vs) =>
      if |t| > 254 then (if |t| % 256 == 255 then Fail else Abort)
      else
        (match RereadProps(reg, reg[t], vs, Defaults(reg[t]))
         case Ok(r) => Ok(Object(t, r))
         case Fail => Fail
         case Abort => Abort)
    case _ => Ok(v)
  }

  /** The properties arrive last one first.  One with a name of 255 bytes (modulo 256) ends the
      object, and with any other name that does not fit the reader runs over it. */
  function RereadProps(reg: Registry, ps: seq<Property>, vs: seq<Value>, inst: seq<Value>): (r: Read<seq<Value>>)
    requires |ps| == |vs| <= |inst| && AllWellFormed(reg, ps, vs)
    ensures r.Ok? ==> |r.value| == |inst| && r.value[|vs|..] == inst[|vs|..]
    decreases vs, 0
  {
    if vs == [] then Ok(inst)
    else
      var n := |vs| - 1;
      if !Writable(vs[n]) then RereadProps(reg, ps[..n], vs[..n], inst)
      else if |ps[n].name| <= 254 then
        match Reread(reg, vs[n])
        case Ok(v) => RereadProps(reg, ps[..n], vs[..n], inst[n := v])
        case Fail => Abort
        case Abort => Abort
      else if |ps[n].name| % 256 == 255 then Ok(inst)
      else Abort
  }

  lemma RereadType(reg: Registry, v: Value)
    requires WellFormed(reg, v) && Writable(v)
    ensures var r := Reread(reg, v);
      r.Ok? ==> TypeOf(r.value) == TypeOf(v) && !r.value.Unset?
  {
    hide RereadProps;
  }

  /** The properties are emitted last one first. */
  lemma EncodePropsNext(reg: Registry, ps: seq<Property>, vs: seq<Value>, i: nat)
    requires |ps| == |vs| && AllWellFormed(reg, ps, vs) && i < |vs|
    ensures AllWellFormed(reg, ps[..i], vs[..i]) && AllWellFormed(reg, ps[..i + 1], vs[..i + 1])
    ensures WellFormed(reg, vs[i])
    ensures EncodeProps(reg, ps[..i + 1], vs[..i + 1]) ==
      EncodeProp(reg, ps[i], vs[i]) + EncodeProps(reg, ps[..i], vs[..i])
  {
    PrefixWellFormed(reg, ps, vs, i);
    PrefixWellFormed(reg, ps, vs, i + 1);
    PropAt(reg, ps, vs, i);
    assert ps[..i + 1][..i] == ps[..i] && vs[..i + 1][..i] == vs[..i];
  }

  lemma RereadPropsNext(reg: Registry, ps: seq<Property>, vs: seq<Value>, i: nat, inst: seq<Value>)
    requires |ps| == |vs| <= |inst| && AllWellFormed(reg, ps, vs) && i < |vs|
    requires AllWellFormed(reg, ps[..i], vs[..i]) && AllWellFormed(reg, ps[..i + 1], vs[..i + 1])
    requires WellFormed(reg, vs[i])
    ensures RereadProps(reg, ps[..i + 1], vs[..i + 1], inst) ==
      if !Writable(vs[i]) then RereadProps(reg, ps[..i], vs[..i], inst)
      else if |ps[i].name| <= 254 then
        match Reread(reg, vs[i])
        case Ok(v) => RereadProps(reg, ps[..i], vs[..i], inst[i := v])
        case Fail => Abort
        case Abort => Abort
      else if |ps[i].name| % 256 == 255 then Ok(inst)
      else Abort
  {
    hide Reread, AllWellFormed, WellFormed;
    assert ps[..i + 1][..i] == ps[..i] && vs[..i + 1][..i] == vs[..i];
  }

  lemma {:induction false} PropsReread(reg: Registry, t: Bytes, vs: seq<Value>, k: nat, inst: seq<Value>, rest: Bytes)
    requires NamedRegistry(reg) && t in reg && |reg[t]| == |vs| == |inst| && k <= |vs|
    requires AllWellFormed(reg, reg[t], vs) && AllWellFormed(reg, reg[t][..k], vs[..k])
    requires |EncodeProps(reg, reg[t][..k], vs[..k])| < LIMIT32
    ensures DecodeProps(reg, reg[t], inst, EncodeProps(reg, reg[t][..k], vs[..k]) + [0] + rest) ==
      RereadProps(reg, reg[t][..k], vs[..k], inst)
    decreases vs, k
  {
    hide Encode, Decode, EncodeProps, EncodeChunk, DecodeProps, RereadProps, Reread;
    hide WellFormed, AllWellFormed, SetProperty;
    var ps := reg[t];
    if k == 0 {
      NoPropsReread(reg, ps, vs, inst, rest);
    } else {
      var i := k - 1;
      EncodePropsNext(reg, ps, vs, i);
      RereadPropsNext(reg, ps, vs, i, inst);
      EncodeSucceeds(reg, vs[i]);
      PropAt(reg, ps, vs, i);
      var chunk := EncodeProp(reg, ps[i], vs[i]);
      var tail := EncodeProps(reg, ps[..i], vs[..i]) + [0] + rest;
      assert EncodeProps(reg, ps[..k], vs[..k]) + [0] + rest == chunk + tail;
      if !Writable(vs[i]) {
        assert chunk + tail == tail;
        PropsReread(reg, t, vs, i, inst, rest);
      } else if |ps[i].name| > 254 {
        LongNames(reg, ps, inst, ps[i].name, Encode(reg, vs[i]).value, tail);
      } else {
        ChunkIsLonger(ps[i].name, Encode(reg, vs[i]).value);
        RereadIs(reg, vs[i], tail);
        ChunkRoundTrip(reg, ps, inst, ps[i].name, Encode(reg, vs[i]).value, tail);
        var r := Reread(reg, vs[i]);
        if r.Ok? {
          RereadType(reg, vs[i]);
          SetPropertyAt(ps, inst, i, r.value);
          PropsReread(reg, t, vs, i, inst[i := r.value], rest);
        }
      }
    }
  }

  lemma ChunkIsLonger(name: Bytes, e: Bytes)
    ensures |e| < |EncodeChunk(name, e)|
  {}

  lemma NoPropsReread(reg: Registry, ps: seq<Property>, vs: seq<Value>, inst: seq<Value>, rest: Bytes)
    requires |ps| == |vs| == |inst| && AllWellFormed(reg, ps[..0], vs[..0])
    ensures DecodeProps(reg, ps, inst, EncodeProps(reg, ps[..0], vs[..0]) + [0] + rest) == Ok(inst)
    ensures RereadProps(reg, ps[..0], vs[..0], inst) == Ok(inst)
  {}

  lemma ObjectReread(reg: Registry, t: Bytes, vs: seq<Value>, rest: Bytes)
    requires NamedRegistry(reg) && WellFormed(reg, Object(t, vs))
    requires |EncodeHeader(t) + EncodeProps(reg, reg[t], vs) + [0]| < LIMIT32
    ensures DecodeObject(reg, EncodeHeader(t) + EncodeProps(reg, reg[t], vs) + [0] + rest) == Reread(reg, Object(t, vs))
    decreases vs, |vs| + 1
  {
    hide Encode, EncodeProps, EncodeHeader, Decode, DecodeProps, DecodeObject, RereadProps, AllWellFormed;
    var props := EncodeProps(reg, reg[t], vs);
    assert EncodeHeader(t) + props + [0] + rest == EncodeHeader(t) + (props + [0] + rest);
    if |t| > 254 {
      LongTypeNames(reg, t, props + [0] + rest);
    } else {
      HeaderRoundTrip(reg, t, props + [0] + rest);
      assert reg[t][..|vs|] == reg[t] && vs[..|vs|] == vs;
      PropsReread(reg, t, vs, |vs|, Defaults(reg[t]), rest);
    }
  }

  lemma IntegersRoundTrip(reg: Registry, v: Value, rest: Bytes)
    requires WellFormed(reg, v)
    requires v.Char? || v.UChar? || v.Int? || v.UInt? || v.Long? || v.ULong? || v.Int64? || v.UInt64?
    ensures Decode(reg, Encode(reg, v).value + rest, |Encode(reg, v).value|) == Ok(v)
  {
    hide EncodeInteger, DecodeInteger, DecodeString, DecodeNumber, DecodeObject, ToSigned, FitsSigned;
    match v
    case Char(x) => IntegerRoundTrip(TAG_CHAR, 1, x, rest);
    case UChar(x) => IntegerRoundTrip(TAG_UCHAR, 1, x, rest);
    case Int(x) => IntegerRoundTrip(TAG_INT, 4, x, rest);
    case UInt(x) => IntegerRoundTrip(TAG_UINT, 4, x, rest);
    case Long(x) => IntegerRoundTrip(TAG_LONG, 8, x, rest);
    case ULong(x) => IntegerRoundTrip(TAG_ULONG, 8, x, rest);
    case Int64(x) => IntegerRoundTrip(TAG_INT64, 8, x, rest);
    case UInt64(x) => IntegerRoundTrip(TAG_UINT64, 8, x, rest);
  }

  /** read_value of write_value, for every value that can be written, however deeply nested,
      with names of any length, and whatever follows. */
  lemma {:induction false} RereadIs(reg: Registry, v: Value, rest: Bytes)
    requires NamedRegistry(reg) && WellFormed(reg, v) && Writable(v)
    requires Encode(reg, v).Some? && |Encode(reg, v).value| < LIMIT32
    ensures Decode(reg, Encode(reg, v).value + rest, |Encode(reg, v).value|) == Reread(reg, v)
    decreases v, 0
  {
    hide DecodeObject, DecodeString, DecodeNumber, DecodeInteger, RereadProps, EncodeProps, AllWellFormed;
    match v
    case Object(t, vs) => ObjectReread(reg, t, vs, rest);
    case Str(s) => StringRoundTrip(s, rest);
    case Boolean(on) =>
    case Double(s) => NumberRoundTrip(TAG_DOUBLE, s, rest);
    case Float(s) => NumberRoundTrip(TAG_FLOAT, s, rest);
    case _ => IntegersRoundTrip(reg, v, rest);
  }

  // ----- when the names do no harm -----

  /** Type names fit; and so do the names of the properties that are written, in the order in
      which they are, down to one that looks like the sentinel, if what it hides has its
      default anyway. */
  predicate ReadsWell(reg: Registry, v: Value)
    requires WellFormed(reg, v)
    decreases v, 1
  {
    match v
    case Object(t, vs) => |t| <= 254 && PropsReadWell(reg, reg[t], vs)
    case _ => true
  }

  predicate PropsReadWell(reg: Registry, ps: seq<Property>, vs: seq<Value>)
    requires |ps| == |vs| && AllWellFormed(reg, ps, vs)
    decreases vs, 0
  {
    vs == [] ||
    (var n := |vs| - 1;
     if !Writable(vs[n]) then PropsReadWell(reg, ps[..n], vs[..n])
     else if |ps[n].name| <= 254 then ReadsWell(reg, vs[n]) && PropsReadWell(reg, ps[..n], vs[..n])
     else |ps[n].name| % 256 == 255 && RestoredProps(reg, ps, vs) == Defaults(ps))
  }

  /** Exactly these values come back as they should. */
  lemma {:induction false} RereadExactly(reg: Registry, v: Value)
    requires WellFormed(reg, v)
    ensures Reread(reg, v) == Ok(Restored(reg, v)) <==> ReadsWell(reg, v)
    decreases v, 1
  {
    hide RereadProps, RestoredProps, PropsReadWell;
    if v.Object? {
      var ps := reg[v.typeName];
      RereadPropsExactly(reg, ps, v.props, Defaults(ps));
      var restored := RestoredProps(reg, ps, v.props);
      assert Defaults(ps)[..|ps|] == Defaults(ps) && restored + Defaults(ps)[|ps|..] == restored;
    }
  }

  /** The three recursions over the properties, one step each. */
  lemma LastProp(reg: Registry, ps: seq<Property>, vs: seq<Value>, inst: seq<Value>)
    requires |ps| == |vs| <= |inst| && AllWellFormed(reg, ps, vs) && vs != []
    ensures var n := |vs| - 1;
      && AllWellFormed(reg, ps[..n], vs[..n]) && WellFormed(reg, vs[n])
      && (!Writable(vs[n]) ==>
            && RereadProps(reg, ps, vs, inst) == RereadProps(reg, ps[..n], vs[..n], inst)
            && PropsReadWell(reg, ps, vs) == PropsReadWell(reg, ps[..n], vs[..n])
            && RestoredProps(reg, ps, vs) == RestoredProps(reg, ps[..n], vs[..n]) + [ps[n].default])
      && (Writable(vs[n]) && |ps[n].name| <= 254 ==>
            var r := Reread(reg, vs[n]);
            && RereadProps(reg, ps, vs, inst) ==
                 (if r.Ok? then RereadProps(reg, ps[..n], vs[..n], inst[n := r.value]) else Abort)
            && PropsReadWell(reg, ps, vs) == (ReadsWell(reg, vs[n]) && PropsReadWell(reg, ps[..n], vs[..n]))
            && RestoredProps(reg, ps, vs) == RestoredProps(reg, ps[..n], vs[..n]) + [Restored(reg, vs[n])])
      && (Writable(vs[n]) && |ps[n].name| > 254 ==>
            && RereadProps(reg, ps, vs, inst) == (if |ps[n].name| % 256 == 255 then Ok(inst) else Abort)
            && PropsReadWell(reg, ps, vs) ==
                 (|ps[n].name| % 256 == 255 && RestoredProps(reg, ps, vs) == Defaults(ps)))
  {
    hide Reread, ReadsWell, Restored;
  }

  lemma {:induction false} RereadPropsExactly(reg: Registry, ps: seq<Property>, vs: seq<Value>, inst: seq<Value>)
    requires |ps| == |vs| <= |inst| && AllWellFormed(reg, ps, vs) && inst[..|vs|] == Defaults(ps)
    ensures RereadProps(reg, ps, vs, inst) == Ok(RestoredProps(reg, ps, vs) + inst[|vs|..])
      <==> PropsReadWell(reg, ps, vs)
    decreases vs, 1
  {
    hide Reread, ReadsWell, Restored, WellFormed, RestoredProps, RereadProps, PropsReadWell, Defaults;
    if vs == [] {
      NoPropsExactly(reg, ps, vs, inst);
    } else {
      LastProp(reg, ps, vs, inst);
      hide AllWellFormed;
      var n := |vs| - 1;
      if !Writable(vs[n]) {
        DefaultsPrefix(ps, inst);
        RereadPropsExactly(reg, ps[..n], vs[..n], inst);
        DefaultMoves(RestoredProps(reg, ps[..n], vs[..n]), ps[n].default, inst, n);
      } else if |ps[n].name| > 254 {
        SameFront(inst, Defaults(ps), RestoredProps(reg, ps, vs));
      } else {
        RereadPropExactly(reg, ps, vs, inst);
      }
    }
  }

  lemma NoPropsExactly(reg: Registry, ps: seq<Property>, vs: seq<Value>, inst: seq<Value>)
    requires |vs| == 0 && |ps| == 0
    ensures RereadProps(reg, ps, vs, inst) == Ok(RestoredProps(reg, ps, vs) + inst[|vs|..])
    ensures PropsReadWell(reg, ps, vs)
  {
    assert [] + inst[0..] == inst;
  }

  lemma DefaultMoves(front: seq<Value>, default: Value, inst: seq<Value>, n: nat)
    requires n < |inst| && inst[n] == default
    ensures front + [default] + inst[n + 1..] == front + inst[n..]
  {
    assert inst[n..] == [inst[n]] + inst[n + 1..];
  }

  /** The same for lists whose last property is written under a name that fits. */
  lemma {:induction false} RereadPropExactly(reg: Registry, ps: seq<Property>, vs: seq<Value>, inst: seq<Value>)
    requires |ps| == |vs| <= |inst| && AllWellFormed(reg, ps, vs) && inst[..|vs|] == Defaults(ps)
    requires vs != [] && Writable(vs[|vs| - 1]) && |ps[|vs| - 1].name| <= 254
    ensures RereadProps(reg, ps, vs, inst) == Ok(RestoredProps(reg, ps, vs) + inst[|vs|..])
      <==> PropsReadWell(reg, ps, vs)
    decreases vs, 0
  {
    LastProp(reg, ps, vs, inst);
    hide Reread, ReadsWell, Restored, WellFormed, AllWellFormed, RestoredProps, RereadProps, PropsReadWell;
    var n := |vs| - 1;
    var front, rest := RestoredProps(reg, ps[..n], vs[..n]), inst[|vs|..];
    hide Defaults;
    DefaultsPrefix(ps, inst);
    RereadExactly(reg, vs[n]);
    var r, last := Reread(reg, vs[n]), Restored(reg, vs[n]);
    if r.Ok? {
      var now := inst[n := r.value];
      UpdateSplits(inst, n, r.value);
      RereadPropsExactly(reg, ps[..n], vs[..n], now);
      assert front + [last] + rest == front + ([last] + rest);
      SameLast(RereadProps(reg, ps[..n], vs[..n], now), front, r.value, last, rest);
    }
  }

  lemma UpdateSplits(inst: seq<Value>, n: nat, v: Value)
    requires n < |inst|
    ensures inst[n := v][..n] == inst[..n] && inst[n := v][n..] == [v] + inst[n + 1..]
  {}

  lemma SameFront(inst: seq<Value>, a: seq<Value>, b: seq<Value>)
    requires |a| == |b| <= |inst| && inst[..|a|] == a
    ensures inst == b + inst[|a|..] <==> b == a
  {
    assert inst == inst[..|a|] + inst[|a|..];
    assert (b + inst[|a|..])[..|a|] == b;
  }

  /** A result that agrees with `rest` from its n-th place on. */
  lemma SameLast(q: Read<seq<Value>>, front: seq<Value>, v: Value, last: Value, rest: seq<Value>)
    requires q.Ok? ==> |q.value| == |front| + 1 + |rest| && q.value[|front|..] == [v] + rest
    ensures v != last ==> q != Ok(front + ([last] + rest))
  {
    assert (front + ([last] + rest))[|front|..][0] == last;
    assert ([v] + rest)[0] == v;
  }

  lemma DefaultsPrefix(ps: seq<Property>, inst: seq<Value>)
    requires ps != [] && |ps| <= |inst| && inst[..|ps|] == Defaults(ps)
    ensures inst[..|ps| - 1] == Defaults(ps[..|ps| - 1]) && inst[|ps| - 1] == ps[|ps| - 1].default
  {
    var n := |ps| - 1;
    assert inst[..n] == inst[..|ps|][..n] && Defaults(ps)[..n] == Defaults(ps[..n]);
    assert inst[n] == inst[..|ps|][n];
  }

  /** Names that fit the one-byte length field never do any harm. */
  lemma {:induction false} ShortNamesReadWell(reg: Registry, v: Value)
    requires GoodRegistry(reg) && WellFormed(reg, v)
    ensures ReadsWell(reg, v)
    decreases v, 1
  {
    if v.Object? {
      ShortPropsReadWell(reg, reg[v.typeName], v.props);
    }
  }

  lemma {:induction false} ShortPropsReadWell(reg: Registry, ps: seq<Property>, vs: seq<Value>)
    requires GoodRegistry(reg) && |ps| == |vs| && AllWellFormed(reg, ps, vs)
    requires forall i :: 0 <= i < |ps| ==> |ps[i].name| <= 254
    ensures PropsReadWell(reg, ps, vs)
    decreases vs, 0
  {
    hide GoodRegistry, RestoredProps;
    if vs != [] {
      var n := |vs| - 1;
      ShortNamesReadWell(reg, vs[n]);
      ShortPropsReadWell(reg, ps[..n], vs[..n]);
    }
  }

  /** So, with such names, read_value gives back every value that write_value can write, with
      the properties that could not be written at their defaults. */
  lemma RoundTrip(reg: Registry, v: Value, rest: Bytes)
    requires GoodRegistry(reg) && WellFormed(reg, v) && Writable(v)
    requires Encode(reg, v).Some? && |Encode(reg, v).value| < LIMIT32
    ensures Decode(reg, Encode(reg, v).value + rest, |Encode(reg, v).value|) == Ok(Restored(reg, v))
  {
    hide Decode, Encode, WellFormed, Reread, ReadsWell, Restored;
    RereadIs(reg, v, rest);
    ShortNamesReadWell(reg, v);
    RereadExactly(reg, v);
  }

  // ----- nothing lost -----

  /** Every property at every depth is writable, or already has its default. */
  predicate NothingToLose(reg: Registry, v: Value)
    requires WellFormed(reg, v)
    decreases v, 1
  {
    match v
    case Object(t, vs) => NoPropToLose(reg, reg[t], vs)
    case _ => true
  }

  predicate NoPropToLose(reg: Registry, ps: seq<Property>, vs: seq<Value>)
    requires |ps| == |vs| && AllWellFormed(reg, ps, vs)
    decreases vs, 0
  {
    vs == [] ||
    (var n := |vs| - 1;
     && (if Writable(vs[n]) then NothingToLose(reg, vs[n]) else vs[n] == ps[n].default)
     && NoPropToLose(reg, ps[..n], vs[..n]))
  }

  /** Exactly these values come back unchanged. */
  lemma {:induction false} RestoredExactly(reg: Registry, v: Value)
    requires WellFormed(reg, v)
    ensures Restored(reg, v) == v <==> NothingToLose(reg, v)
    decreases v, 1
  {
    if v.Object? {
      RestoredPropsExactly(reg, reg[v.typeName], v.props);
    }
  }

  lemma {:induction false} RestoredPropsExactly(reg: Registry, ps: seq<Property>, vs: seq<Value>)
    requires |ps| == |vs| && AllWellFormed(reg, ps, vs)
    ensures RestoredProps(reg, ps, vs) == vs <==> NoPropToLose(reg, ps, vs)
    decreases vs, 0
  {
    if vs != [] {
      var n := |vs| - 1;
      RestoredPropsExactly(reg, ps[..n], vs[..n]);
      RestoredExactly(reg, vs[n]);
      var r := RestoredProps(reg, ps, vs);
      assert r[..n] == RestoredProps(reg, ps[..n], vs[..n]);
      assert r == r[..n] + [r[n]] && vs == vs[..n] + [vs[n]];
    }
  }

  // ----- the interface -----

  /** A buffer is produced in any case; it can be read exactly when the value could be written,
      because the result of write_value is not looked at. */
  lemma SerializeReads(reg: Registry, v: Value)
    requires NamedRegistry(reg) && WellFormed(reg, v) && |Serialize(reg, v)| < LIMIT32
    ensures Writable(v) ==> Deserialize(reg, Serialize(reg, v)) == Reread(reg, v)
    ensures !Writable(v) ==> Serialize(reg, v) == [1, 0] && Deserialize(reg, Serialize(reg, v)) == Abort
    ensures |Serialize(reg, v)| >= 2
  {
    hide Decode, Encode, WellFormed, Reread;
    EncodeSucceeds(reg, v);
    var b := Serialize(reg, v);
    if Writable(v) {
      RereadIs(reg, v, []);
      assert b[2..] == Encode(reg, v).value + [];
    } else {
      assert b == [1, 0];
      NothingToDecode(reg, b[2..]);
    }
  }

  /** And with names that fit the value comes back. */
  lemma SerializeRoundTrip(reg: Registry, v: Value)
    requires GoodRegistry(reg) && WellFormed(reg, v) && |Serialize(reg, v)| < LIMIT32
    ensures Writable(v) <==> Deserialize(reg, Serialize(reg, v)) == Ok(Restored(reg, v))
    ensures !Writable(v) ==> Serialize(reg, v) == [1, 0] && Deserialize(reg, Serialize(reg, v)) == Abort
    ensures |Serialize(reg, v)| >= 2
  {
    hide Decode, Encode, WellFormed, Reread, ReadsWell, Restored, Serialize, Deserialize;
    SerializeReads(reg, v);
    ShortNamesReadWell(reg, v);
    RereadExactly(reg, v);
  }

  lemma NothingToDecode(reg: Registry, b: Bytes)
    requires b == []
    ensures Decode(reg, b, 0) == Abort
  {}

  // ----- the bytes themselves -----

  /** The first byte of every encoding. */
  function TagNumber(v: Value): nat {
    match v
    case Boolean(_) => 1
    case Int64(_) => 2
    case UInt64(_) => 130
    case Long(_) => 3
    case ULong(_) => 131
    case Int(_) => 4
    case UInt(_) => 132
    case Char(_) => 6
    case UChar(_) => 134
    case Double(_) => 7
    case Float(_) => 8
    case Str(_) => 14
    case Object(_, _) => 15
    case _ => 0
  }

  /** The length of the encodings that start with this byte, if they all have the same. */
  function FixedWidth(tag: Byte): Option<nat> {
    if tag == 1 || tag == 6 || tag == 134 then Some(2)
    else if tag == 5 || tag == 133 then Some(3)
    else if tag == 4 || tag == 132 then Some(5)
    else if tag == 2 || tag == 130 || tag == 3 || tag == 131 then Some(9)
    else None
  }

  /** Tags, widths and contents as other programs have to find them in a buffer. */
  lemma EncodedBytes(reg: Registry, v: Value)
    requires WellFormed(reg, v) && Encode(reg, v).Some?
    ensures var e := Encode(reg, v).value;
      && |e| >= 2 && e[0] == TagNumber(v)
      && (FixedWidth(e[0]).Some? ==> |e| == FixedWidth(e[0]).value)
      && (v.Boolean? ==> e[1] == if v.on then 1 else 0)
      && (v.Str? && |e| < LIMIT32 ==>
            && |e| >= 5 && BigEndianValue(e[1..5]) == |e| - 5
            && e[5..] == if v.text.Some? then v.text.value + [0] else [])
      && (v.Object? && |v.typeName| <= 254 ==>
            var t := v.typeName;
            |e| > |t| + 3 && e[1] == |t| + 1 && e[2..|t| + 2] == t && e[|t| + 2] == 0)
  {
    hide EncodeProps, AllWellFormed, EncodeInteger, EncodeHeader, FixedWidth, EncodeString;
    if v.Str? || v.Double? || v.Float? {
      StringBytes(TagOf(v), if v.Str? then v.text else Some(if v.Double? then v.digits else v.fdigits));
    } else if v.Object? {
      if |v.typeName| <= 254 {
        HeaderOf(v.typeName);
      }
      ObjectStarts(v.typeName);
    } else {
      IntegerBytes(reg, v);
    }
  }

  function TagOf(v: Value): Byte {
    if v.Double? then TAG_DOUBLE else if v.Float? then TAG_FLOAT else TAG_STRING
  }

  lemma ObjectStarts(t: Bytes)
    ensures |EncodeHeader(t)| >= 2 && EncodeHeader(t)[0] == 15 && FixedWidth(15).None?
  {}

  lemma StringBytes(tag: Byte, s: Option<Bytes>)
    requires tag == TAG_STRING || tag == TAG_DOUBLE || tag == TAG_FLOAT
    ensures var e := EncodeString(tag, s);
      && |e| >= 5 && e[0] == tag && FixedWidth(tag).None?
      && e[5..] == (if s.Some? then s.value + [0] else [])
      && (|e| < LIMIT32 ==> BigEndianValue(e[1..5]) == |e| - 5)
  {
    var content := if s.Some? then s.value + [0] else [];
    var e := EncodeString(tag, s);
    assert e[1..5] == BigEndian(4, |content|) && e[5..] == content;
    if |e| < LIMIT32 {
      Pow256Values();
      BigEndianRoundTrip(4, |content|);
    }
  }

  lemma IntegerBytes(reg: Registry, v: Value)
    requires WellFormed(reg, v) && Encode(reg, v).Some?
    requires !v.Str? && !v.Double? && !v.Float? && !v.Object?
    ensures var e := Encode(reg, v).value;
      && |e| >= 2 && e[0] == TagNumber(v) && FixedWidth(e[0]) == Some(|e|)
      && (v.Boolean? ==> e[1] == if v.on then 1 else 0)
  {
    hide BigEndian, Pow256;
  }

  /** What read_value accepts of the fixed-width tags, and of the bytes that are no tags. */
  lemma FixedWidthsChecked(reg: Registry, b: Bytes, len: nat)
    requires b != [] && len <= |b|
    ensures FixedWidth(b[0]).Some? ==> Decode(reg, b, len) == Fail || Decode(reg, b, len).Ok?
    ensures FixedWidth(b[0]).Some? ==> (Decode(reg, b, len).Ok? <==> len == FixedWidth(b[0]).value)
    ensures FixedWidth(b[0]).None? && b[0] !in {7 as Byte, 8, 14, 15} ==> Decode(reg, b, len) == Fail
  {
    hide DecodeString, DecodeNumber, DecodeObject, ToSigned, BigEndianValue;
  }

  /** Nothing writes shorts, but they are read, as integers. */
  lemma ShortsAreRead(reg: Registry, x: int, rest: Bytes)
    ensures FitsSigned(2, x) ==> Decode(reg, [5] + BigEndian(2, ToUnsigned(2, x)) + rest, 3) == Ok(Int(x))
    ensures 0 <= x < 0x1_0000 ==> Decode(reg, [133] + BigEndian(2, x) + rest, 3) == Ok(Int(x))
  {
    Pow256Values();
    hide DecodeString, DecodeNumber, DecodeObject, Pow256, BigEndian, BigEndianValue;
    if FitsSigned(2, x) {
      IntegerRoundTrip(TAG_SHORT, 2, x, rest);
      assert EncodeInteger(TAG_SHORT, 2, x) == [5] + BigEndian(2, ToUnsigned(2, x));
    }
    if 0 <= x < 0x1_0000 {
      IntegerRoundTrip(TAG_USHORT, 2, x, rest);
      assert EncodeInteger(TAG_USHORT, 2, x) == [133] + BigEndian(2, x);
    }
  }

  /** A string is only accepted with the length it names, and one with a NUL before its end
      leaves the value uninitialised. */
  lemma StringsChecked(reg: Registry, b: Bytes, len: nat)
    requires 5 <= |b| < LIMIT32 && len <= |b| && b[0] == 14
    ensures Decode(reg, b, len).Ok? ==> BigEndianValue(b[1..5]) + 5 == len
    ensures BigEndianValue(b[1..5]) + 5 < LIMIT32 && BigEndianValue(b[1..5]) + 5 != len ==>
      Decode(reg, b, len) == Fail
    ensures BigEndianValue(b[1..5]) + 5 == len > 5 && CString(b[5..len]).Some? ==>
      (|CString(b[5..len]).value| + 6 < len ==> Decode(reg, b, len) == Ok(Unset))
  {
    hide DecodeInteger, DecodeNumber, DecodeObject, BigEndianValue, CString;
  }

  /** An object of a type that is not registered is refused, not guessed. */
  lemma UnknownTypeRefused(reg: Registry, t: Bytes, body: Bytes)
    requires ShortName(t) && t !in reg
    ensures DecodeObject(reg, EncodeHeader(t) + body) == Fail
  {
    hide DecodeProps;
    HeaderOf(t);
    var b := EncodeHeader(t) + body;
    assert b[1] == |t| + 1 && b[2..|t| + 3] == t + [0];
    NameOf(t);
  }

  /** Only one version is read. */
  lemma VersionChecked(reg: Registry, b: Bytes, v: Value)
    ensures b != [] && b[0] != 1 ==> Deserialize(reg, b) == Fail
    ensures WellFormed(reg, v) ==> Serialize(reg, v)[..2] == [1, 0]
  {
    hide Decode, Encode;
  }

  // ----- encodings delimit themselves -----

  /** The length of the encoding at the start of a buffer, found without decoding it. */
  function EncodedLength(b: Bytes): nat {
    if b == [] then 0
    else if b[0] == TAG_BOOLEAN || b[0] == TAG_CHAR || b[0] == TAG_UCHAR then 2
    else if b[0] == TAG_INT || b[0] == TAG_UINT then 5
    else if b[0] == TAG_LONG || b[0] == TAG_ULONG || b[0] == TAG_INT64 || b[0] == TAG_UINT64 then 9
    else if b[0] == TAG_STRING || b[0] == TAG_DOUBLE || b[0] == TAG_FLOAT then
      if |b| < 5 then 0 else 5 + BigEndianValue(b[1..5])
    else if |b| < 2 then 0
    else
      var n: nat := b[1];
      if |b| < 2 + n then 0 else 2 + n + PropsLength(b[2 + n..])
  }

  /** The length of the chunks up to the sentinel, and of the sentinel. */
  function PropsLength(c: Bytes): nat
    decreases |c|
  {
    if c == [] then 0
    else if c[0] == 0 then 1
    else
      var n: nat := c[0];
      if |c| < 5 + n then 0
      else
        var len := 5 + n + BigEndianValue(c[1 + n..5 + n]);
        if |c| < len then 0 else len + PropsLength(c[len..])
  }

  lemma ChunkLength(name: Bytes, e: Bytes, rest: Bytes)
    requires ShortName(name) && |e| < LIMIT32
    ensures PropsLength(EncodeChunk(name, e) + rest) == |EncodeChunk(name, e)| + PropsLength(rest)
  {
    ChunkSlices(name, e, rest);
    Pow256Values();
    BigEndianRoundTrip(4, |e|);
  }

  lemma {:induction false} PropsLengthOf(reg: Registry, ps: seq<Property>, vs: seq<Value>, rest: Bytes)
    requires |ps| == |vs| && AllWellFormed(reg, ps, vs) && GoodClass(ps)
    requires |EncodeProps(reg, ps, vs)| < LIMIT32
    ensures PropsLength(EncodeProps(reg, ps, vs) + [0] + rest) == |EncodeProps(reg, ps, vs)| + 1
    decreases |vs|
  {
    hide WellFormed, Encode, PropsLength;
    var all := EncodeProps(reg, ps, vs) + [0] + rest;
    if vs == [] {
      SentinelLength(all);
    } else {
      var n := |vs| - 1;
      var chunk := EncodeProp(reg, ps[n], vs[n]);
      var tail := EncodeProps(reg, ps[..n], vs[..n]) + [0] + rest;
      assert all == chunk + tail;
      PropsLengthOf(reg, ps[..n], vs[..n], rest);
      if chunk != [] {
        ChunkLength(ps[n].name, Encode(reg, vs[n]).value, tail);
      } else {
        assert all == tail;
      }
    }
  }

  lemma SentinelLength(c: Bytes)
    requires c != [] && c[0] == 0
    ensures PropsLength(c) == 1
  {}

  lemma StringLength(tag: Byte, s: Option<Bytes>, rest: Bytes)
    requires |EncodeString(tag, s)| < LIMIT32
    ensures var b := EncodeString(tag, s) + rest;
      |b| >= 5 && b[0] == tag && 5 + BigEndianValue(b[1..5]) == |EncodeString(tag, s)|
  {
    var content := if s.Some? then s.value + [0] else [];
    var b := EncodeString(tag, s) + rest;
    Pow256Values();
    BigEndianRoundTrip(4, |content|);
    assert b[1..5] == BigEndian(4, |content|);
  }

  lemma ObjectLength(reg: Registry, t: Bytes, vs: seq<Value>, rest: Bytes)
    requires GoodRegistry(reg) && t in reg && |reg[t]| == |vs| && AllWellFormed(reg, reg[t], vs)
    requires |EncodeHeader(t) + EncodeProps(reg, reg[t], vs) + [0]| < LIMIT32
    ensures EncodedLength(EncodeHeader(t) + EncodeProps(reg, reg[t], vs) + [0] + rest)
      == |EncodeHeader(t) + EncodeProps(reg, reg[t], vs) + [0]|
  {
    hide EncodeProps, PropsLength, AllWellFormed;
    var props := EncodeProps(reg, reg[t], vs);
    HeaderOf(t);
    hide EncodeHeader;
    var b := EncodeHeader(t) + props + [0] + rest;
    PropsLengthOf(reg, reg[t], vs, rest);
    assert b[2 + |t| + 1..] == props + [0] + rest;
  }

  /** The walk of read_object over what write_object wrote ends on the very last byte. */
  lemma WalkEndsOnSentinel(reg: Registry, t: Bytes, vs: seq<Value>)
    requires GoodRegistry(reg) && WellFormed(reg, Object(t, vs))
    requires |Encode(reg, Object(t, vs)).value| < LIMIT32
    ensures var e := Encode(reg, Object(t, vs)).value;
      && |e| >= |t| + 4 && e[|e| - 1] == 0
      && PropsLength(e[|t| + 3..]) == |e| - (|t| + 3)
  {
    hide EncodeProps, PropsLength, AllWellFormed;
    var props := EncodeProps(reg, reg[t], vs);
    PropsLengthOf(reg, reg[t], vs, []);
    HeaderOf(t);
    var e := Encode(reg, Object(t, vs)).value;
    assert e[|t| + 3..] == props + [0] + [];
  }

  /** Whatever follows an encoding, its length can be read off its own bytes; for an
      object this is the walk of read_object, which stops exactly behind the sentinel. */
  lemma LengthIsIntrinsic(reg: Registry, v: Value, rest: Bytes)
    requires GoodRegistry(reg) && WellFormed(reg, v) && Writable(v)
    requires Encode(reg, v).Some? && |Encode(reg, v).value| < LIMIT32
    ensures EncodedLength(Encode(reg, v).value + rest) == |Encode(reg, v).value|
  {
    hide EncodeString, EncodeProps, PropsLength, AllWellFormed;
    match v
    case Object(t, vs) => ObjectLength(reg, t, vs, rest);
    case Str(s) => StringLength(TAG_STRING, s, rest);
    case Double(s) => StringLength(TAG_DOUBLE, Some(s), rest);
    case Float(s) => StringLength(TAG_FLOAT, Some(s), rest);
    case _ =>
  }

  /** No encoding is a proper prefix of another one. */
  lemma PrefixFree(reg: Registry, v: Value, w: Value)
    requires GoodRegistry(reg) && WellFormed(reg, v) && WellFormed(reg, w) && Writable(v) && Writable(w)
    requires Encode(reg, v).Some? && Encode(reg, w).Some?
    requires |Encode(reg, v).value| < LIMIT32 && |Encode(reg, w).value| < LIMIT32
    ensures Encode(reg, v).value <= Encode(reg, w).value ==>
      Encode(reg, v) == Encode(reg, w) && Restored(reg, v) == Restored(reg, w)
  {
    hide Encode, EncodedLength, WellFormed, Restored, Decode;
    var a, b := Encode(reg, v).value, Encode(reg, w).value;
    if a <= b {
      LengthIsIntrinsic(reg, v, b[|a|..]);
      LengthIsIntrinsic(reg, w, []);
      assert a + b[|a|..] == b && b + [] == b;
      assert a == b;
      RoundTrip(reg, v, []);
      RoundTrip(reg, w, []);
    }
  }

  ghost predicate AllEncodable(reg: Registry, vs: seq<Value>) {
    forall i :: 0 <= i < |vs| ==>
      WellFormed(reg, vs[i]) && Writable(vs[i]) && Encode(reg, vs[i]).Some? && |Encode(reg, vs[i]).value| < LIMIT32
  }

  ghost function Concatenated(reg: Registry, vs: seq<Value>): Bytes
    requires AllEncodable(reg, vs)
  {
    if vs == [] then [] else Encode(reg, vs[0]).value + Concatenated(reg, vs[1..])
  }

  /** So concatenated encodings parse in one way only. */
  lemma {:induction false} ConcatenationsParse(reg: Registry, vs: seq<Value>, ws: seq<Value>)
    requires GoodRegistry(reg) && AllEncodable(reg, vs) && AllEncodable(reg, ws)
    requires Concatenated(reg, vs) == Concatenated(reg, ws)
    ensures |vs| == |ws|
    ensures forall i :: 0 <= i < |vs| ==> Restored(reg, vs[i]) == Restored(reg, ws[i])
    decreases |vs| + |ws|
  {
    hide Encode, EncodedLength, WellFormed, Restored, Decode, Writable;
    if vs != [] && ws != [] {
      var a, b := Encode(reg, vs[0]).value, Encode(reg, ws[0]).value;
      var x, y := Concatenated(reg, vs[1..]), Concatenated(reg, ws[1..]);
      LengthIsIntrinsic(reg, vs[0], x);
      LengthIsIntrinsic(reg, ws[0], y);
      assert a == (a + x)[..|a|] && b == (b + y)[..|b|];
      assert x == (a + x)[|a|..] && y == (b + y)[|b|..];
      RoundTrip(reg, vs[0], []);
      RoundTrip(reg, ws[0], []);
      ConcatenationsParse(reg, vs[1..], ws[1..]);
      forall i | 0 <= i < |vs| ensures Restored(reg, vs[i]) == Restored(reg, ws[i]) {
        if i > 0 {
          assert vs[i] == vs[1..][i - 1] && ws[i] == ws[1..][i - 1];
        }
      }
    } else if vs != [] {
      NotEmpty(reg, vs[0]);
    } else if ws != [] {
      NotEmpty(reg, ws[0]);
    }
  }

  lemma NotEmpty(reg: Registry, v: Value)
    requires WellFormed(reg, v) && Encode(reg, v).Some?
    ensures |Encode(reg, v).value| >= 2
  {
    hide EncodeProps, AllWellFormed;
  }
}
