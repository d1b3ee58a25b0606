/** GValues, as far as the binary formatter looks at them, and the registered object types. */
module Values {
  import opened Wrappers
  import opened Integers

  datatype GType =
    | TString | TBoolean | TChar | TUChar | TInt | TUInt | TLong | TULong | TInt64 | TUInt64
    | TDouble | TFloat | TObject
    | TOther                        // boxed, enum, flags, pointer, param, none

  /** `Double` and `Float` hold the text that printf gives for the number. */
  datatype Value =
    | Unset                         // a GValue that was never initialised
    | Other(raw: nat)
    | Str(text: Option<Bytes>)
    | Boolean(on: bool)
    | Char(c: int)
    | UChar(uc: nat)
    | Int(i: int)
    | UInt(u: nat)
    | Long(l: int)
    | ULong(ul: nat)
    | Int64(i64: int)
    | UInt64(u64: nat)
    | Double(digits: Bytes)
    | Float(fdigits: Bytes)
    | NullObject
    | Object(typeName: Bytes, props: seq<Value>)   // one value for each declared property

  function TypeOf(v: Value): GType {
    match v
    case Unset => TOther
    case Other(_) => TOther
    case Str(_) => TString
    case Boolean(_) => TBoolean
    case Char(_) => TChar
    case UChar(_) => TUChar
    case Int(_) => TInt
    case UInt(_) => TUInt
    case Long(_) => TLong
    case ULong(_) => TULong
    case Int64(_) => TInt64
    case UInt64(_) => TUInt64
    case Double(_) => TDouble
    case Float(_) => TFloat
    case NullObject => TObject
    case Object(_, _) => TObject
  }

  /** A declared property with the value a new instance has. */
  datatype Property = Property(name: Bytes, gtype: GType, default: Value)

  type Registry = map<Bytes, seq<Property>>

  predicate NoNul(s: Bytes) {
    forall i :: 0 <= i < |s| ==> s[i] != 0
  }

  predicate DistinctNames(ps: seq<Property>) {
    forall i, j :: 0 <= i < j < |ps| ==> ps[i].name != ps[j].name
  }

  /** Classes as GObject allows them: distinct names, and defaults of the declared types. */
  predicate NamedClass(ps: seq<Property>) {
    && DistinctNames(ps)
    && (forall i :: 0 <= i < |ps| ==> NoNul(ps[i].name) && TypeOf(ps[i].default) == ps[i].gtype)
  }

  predicate NamedRegistry(reg: Registry) {
    forall t :: t in reg ==> NoNul(t) && NamedClass(reg[t])
  }

  /** A name whose length with its NUL fits the one-byte length field. */
  predicate ShortName(s: Bytes) {
    NoNul(s) && |s| <= 254
  }

  predicate GoodClass(ps: seq<Property>) {
    NamedClass(ps) && forall i :: 0 <= i < |ps| ==> ShortName(ps[i].name)
  }

  predicate GoodRegistry(reg: Registry) {
    forall t :: t in reg ==> ShortName(t) && GoodClass(reg[t])
  }

  /** Values that can exist: numbers of their width, C strings, and instances of
      registered types whose properties hold values of the declared types. */
  predicate WellFormed(reg: Registry, v: Value)
    decreases v, 1
  {
    match v
    case Str(Some(s)) => NoNul(s)
    case Char(c) => FitsSigned(1, c)
    case UChar(c) => c < Pow256(1)
    case Int(i) => FitsSigned(4, i)
    case UInt(u) => u < Pow256(4)
    case Long(l) => FitsSigned(8, l)
    case ULong(l) => l < Pow256(8)
    case Int64(i) => FitsSigned(8, i)
    case UInt64(u) => u < Pow256(8)
    case Double(s) => NoNul(s)
    case Float(s) => NoNul(s)
    case Object(t, vs) => t in reg && |vs| == |reg[t]| && AllWellFormed(reg, reg[t], vs)
    case _ => true
  }

  predicate AllWellFormed(reg: Registry, ps: seq<Property>, vs: seq<Value>)
    requires |ps| == |vs|
    decreases vs, 0
  {
    vs == [] ||
    (var n := |vs| - 1;
     && WellFormed(reg, vs[n]) && TypeOf(vs[n]) == ps[n].gtype
     && AllWellFormed(reg, ps[..n], vs[..n]))
  }

  /** Every text in the value has a length that its encoding can count in 32 bits. */
  predicate TextsFit(v: Value) {
    match v
    case Str(Some(s)) => |s| + 6 < LIMIT32
    case Double(s) => |s| + 6 < LIMIT32
    case Float(s) => |s| + 6 < LIMIT32
    case Object(_, vs) => forall i :: 0 <= i < |vs| ==> TextsFit(vs[i])
    case _ => true
  }

  function Defaults(ps: seq<Property>): (vs: seq<Value>)
    ensures |vs| == |ps|
    ensures forall i :: 0 <= i < |ps| ==> vs[i] == ps[i].default
  {
    if ps == [] then [] else Defaults(ps[..|ps| - 1]) + [ps[|ps| - 1].default]
  }

  /** A setter that stores a value of the declared type; anything else changes nothing. */
  function SetProperty(ps: seq<Property>, vs: seq<Value>, name: Bytes, v: Value): (r: seq<Value>)
    requires |ps| == |vs|
    ensures |r| == |vs|
  {
    if ps == [] then []
    else
      var n := |ps| - 1;
      if ps[n].name == name then
        if TypeOf(v) == ps[n].gtype && !v.Unset? then vs[n := v] else vs
      else SetProperty(ps[..n], vs[..n], name, v) + [vs[n]]
  }

  /** A name that is not declared, or a value that is not of the declared type. */
  lemma {:induction false} SetPropertyElsewhere(ps: seq<Property>, vs: seq<Value>, name: Bytes, v: Value)
    requires |ps| == |vs|
    requires v.Unset? || forall i :: 0 <= i < |ps| ==> ps[i].name != name || TypeOf(v) != ps[i].gtype
    ensures SetProperty(ps, vs, name, v) == vs
  {
    if ps != [] {
      var n := |ps| - 1;
      if ps[n].name != name {
        SetPropertyElsewhere(ps[..n], vs[..n], name, v);
      }
    }
  }

  lemma {:induction false} SetPropertyAt(ps: seq<Property>, vs: seq<Value>, i: nat, v: Value)
    requires |ps| == |vs| && DistinctNames(ps) && i < |ps|
    requires TypeOf(v) == ps[i].gtype && !v.Unset?
    ensures SetProperty(ps, vs, ps[i].name, v) == vs[i := v]
  {
    var n := |ps| - 1;
    if i < n {
      assert ps[i].name != ps[n].name;
      SetPropertyAt(ps[..n], vs[..n], i, v);
      assert vs[..n][i := v] + [vs[n]] == vs[i := v];
    }
  }
}
