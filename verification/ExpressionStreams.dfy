/**
 * Expression trees written to and read from a kernel symbol stream: big-endian
 * integers, one byte per truth value, strings and lists prefixed by their length.
 */
module ExpressionStreams {
  import opened Bytes
  import opened ExpressionTrees
  import opened Sequences

  // ---- Fields ----

  function UInt16(v: int): seq<byte>
    requires 0 <= v < 0x1_0000
  {
    [v / 0x100, v % 0x100]
  }

  function UInt32(v: int): seq<byte>
    requires 0 <= v < 0x1_0000_0000
  {
    UInt16(v / 0x1_0000) + UInt16(v % 0x1_0000)
  }

  function UInt64(v: int): seq<byte>
    requires 0 <= v < 0x1_0000_0000_0000_0000
  {
    UInt32(v / 0x1_0000_0000) + UInt32(v % 0x1_0000_0000)
  }

  function Int32(v: int): seq<byte>
    requires -0x8000_0000 <= v < 0x8000_0000
  {
    UInt32(if v < 0 then v + 0x1_0000_0000 else v)
  }

  function Bool(v: bool): seq<byte> { [if v then 1 else 0] }

  /** A value and the data left after reading it; past the end a stream yields zeros. */
  datatype Read<T> = Read(value: T, rest: seq<byte>)

  function ReadUInt16(b: seq<byte>): (r: Read<nat>)
    ensures r.value < 0x1_0000 && |r.rest| <= |b|
  {
    if |b| < 2 then Read(0, []) else Read((b[0] as int) * 0x100 + b[1] as int, b[2..])
  }

  function ReadUInt32(b: seq<byte>): (r: Read<nat>)
    ensures r.value < 0x1_0000_0000 && |r.rest| <= |b|
    ensures r.value != 0 ==> |r.rest| < |b|
  {
    if |b| < 4 then Read(0, [])
    else Read(ReadUInt16(b).value * 0x1_0000 + ReadUInt16(b[2..]).value, b[4..])
  }

  function ReadUInt64(b: seq<byte>): (r: Read<nat>)
    ensures r.value < 0x1_0000_0000_0000_0000 && |r.rest| <= |b|
  {
    if |b| < 8 then Read(0, [])
    else Read(ReadUInt32(b).value * 0x1_0000_0000 + ReadUInt32(b[4..]).value, b[8..])
  }

  function ReadInt32(b: seq<byte>): (r: Read<int>)
    ensures -0x8000_0000 <= r.value < 0x8000_0000 && |r.rest| <= |b|
    ensures r.value != 0 ==> |r.rest| < |b|
  {
    var u := ReadUInt32(b);
    Read(if u.value < 0x8000_0000 then u.value else u.value - 0x1_0000_0000, u.rest)
  }

  function ReadBool(b: seq<byte>): (r: Read<bool>)
    ensures |r.rest| <= |b|
  {
    if |b| < 1 then Read(false, []) else Read(b[0] != 0, b[1..])
  }

  lemma UInt32RoundTrip(v: int, t: seq<byte>)
    requires 0 <= v < 0x1_0000_0000
    ensures ReadUInt32(UInt32(v) + t) == Read(v, t)
  {
    var b := UInt32(v) + t;
    assert b[..2] == UInt16(v / 0x1_0000) && b[2..][..2] == UInt16(v % 0x1_0000);
    assert b[4..] == t;
  }

  lemma Int32RoundTrip(v: int, t: seq<byte>)
    requires -0x8000_0000 <= v < 0x8000_0000
    ensures ReadInt32(Int32(v) + t) == Read(v, t)
  {
    UInt32RoundTrip(if v < 0 then v + 0x1_0000_0000 else v, t);
  }

  lemma UInt64RoundTrip(v: int, t: seq<byte>)
    requires 0 <= v < 0x1_0000_0000_0000_0000
    ensures ReadUInt64(UInt64(v) + t) == Read(v, t)
  {
    var hi, lo := v / 0x1_0000_0000, v % 0x1_0000_0000;
    var b := UInt64(v) + t;
    UInt32RoundTrip(hi, UInt32(lo) + t);
    UInt32RoundTrip(lo, t);
    assert b == UInt32(hi) + (UInt32(lo) + t) && b[4..] == UInt32(lo) + t && b[8..] == t;
  }

  /** The number that bytes denote, the first one being the highest. */
  function FromBig(b: seq<byte>): nat {
    if b == [] then 0 else 0x100 * FromBig(b[..|b| - 1]) + b[|b| - 1] as int
  }

  lemma TwoBytes(a: byte, b: byte)
    ensures FromBig([a, b]) == 0x100 * (a as int) + b as int
  {
    var one: seq<byte>, two: seq<byte> := [a], [a, b];
    assert two[..1] == one && one[..0] == [];
    assert FromBig(one) == a as int;
  }

  lemma UInt32IsBig(v: int)
    requires 0 <= v < 0x1_0000_0000
    ensures |UInt32(v)| == 4 && FromBig(UInt32(v)) == v
  {
    var b := UInt32(v);
    var high, low := v / 0x1_0000, v % 0x1_0000;
    assert b[..3] == UInt16(high) + [low / 0x100] && b[..3][..2] == UInt16(high);
    TwoBytes(high / 0x100, high % 0x100);
    assert FromBig(b[..3]) == 0x100 * high + low / 0x100;
  }

  /** Numbers of 32 bits are stored with the highest byte first, negative ones in two's complement. */
  lemma Int32IsBig(v: int)
    requires -0x8000_0000 <= v < 0x8000_0000
    ensures |Int32(v)| == 4 && FromBig(Int32(v)) == v % 0x1_0000_0000
  {
    UInt32IsBig(if v < 0 then v + 0x1_0000_0000 else v);
  }

  // ---- Strings and lists ----

  const NULL_LENGTH := 0xFFFF_FFFF

  predicate CharsFit(chars: seq<nat>) {
    forall i :: 0 <= i < |chars| ==> chars[i] < 0x1_0000
  }

  predicate TextFits(s: Text) {
    s.Text? ==> 2 * |s.chars| < NULL_LENGTH && CharsFit(s.chars)
  }

  function Chars(chars: seq<nat>): seq<byte>
    requires CharsFit(chars)
  {
    if chars == [] then [] else UInt16(chars[0]) + Chars(chars[1..])
  }

  function ReadChars(b: seq<byte>, n: nat): (r: Read<seq<nat>>)
    ensures |r.rest| <= |b|
    decreases n
  {
    if n == 0 then Read([], b)
    else
      var c := ReadUInt16(b);
      var more := ReadChars(c.rest, n - 1);
      Read([c.value] + more.value, more.rest)
  }

  function String(s: Text): seq<byte>
    requires TextFits(s)
  {
    match s
    case NullText => UInt32(NULL_LENGTH)
    case Text(chars) => UInt32(2 * |chars|) + Chars(chars)
  }

  function ReadString(b: seq<byte>): (r: Read<Text>)
    ensures |r.rest| <= |b|
  {
    var n := ReadUInt32(b);
    if n.value == NULL_LENGTH then Read(NullText, n.rest)
    else
      var c := ReadChars(n.rest, n.value / 2);
      Read(Text(c.value), c.rest)
  }

  lemma {:induction false} CharsRoundTrip(chars: seq<nat>, t: seq<byte>)
    requires CharsFit(chars)
    ensures ReadChars(Chars(chars) + t, |chars|) == Read(chars, t)
  {
    if chars != [] {
      CharsRoundTrip(chars[1..], t);
      var b := Chars(chars) + t;
      assert b == UInt16(chars[0]) + (Chars(chars[1..]) + t);
      assert b[2..] == Chars(chars[1..]) + t;
      assert ReadUInt16(b) == Read(chars[0], b[2..]);
      assert chars == [chars[0]] + chars[1..];
    } else {
      assert Chars(chars) + t == t;
    }
  }

  lemma StringRoundTrip(s: Text, t: seq<byte>)
    requires TextFits(s)
    ensures ReadString(String(s) + t) == Read(s, t)
  {
    match s {
      case NullText => UInt32RoundTrip(NULL_LENGTH, t);
      case Text(chars) =>
        assert String(s) + t == UInt32(2 * |chars|) + (Chars(chars) + t);
        UInt32RoundTrip(2 * |chars|, Chars(chars) + t);
        CharsRoundTrip(chars, t);
    }
  }

  predicate IsInt32(v: int) { -0x8000_0000 <= v < 0x8000_0000 }

  predicate TransformationFits(x: Transformation) {
    IsInt32(x.kind) && IsInt32(x.arrayIndex) && TextFits(x.member)
  }

  predicate TransformationsFit(xs: seq<Transformation>) {
    forall i :: 0 <= i < |xs| ==> TransformationFits(xs[i])
  }

  function PutTransformation(x: Transformation): (r: seq<byte>)
    requires TransformationFits(x)
    ensures r != []
  {
    Int32(x.kind) + Int32(x.arrayIndex) + String(x.member)
  }

  function ReadTransformation(b: seq<byte>): (r: Read<Transformation>)
    ensures |r.rest| <= |b|
  {
    var kind := ReadInt32(b);
    var index := ReadInt32(kind.rest);
    var member := ReadString(index.rest);
    Read(Transformation(kind.value, index.value, member.value), member.rest)
  }

  function Transformations(xs: seq<Transformation>): seq<byte>
    requires TransformationsFit(xs)
  {
    if xs == [] then [] else PutTransformation(xs[0]) + Transformations(xs[1..])
  }

  /** Reading a list stops early when the stream ends. */
  function ReadTransformations(b: seq<byte>, n: nat): (r: Read<seq<Transformation>>)
    ensures |r.rest| <= |b|
    decreases n
  {
    if n == 0 then Read([], b)
    else
      var x := ReadTransformation(b);
      if x.rest == [] then Read([x.value], [])
      else
        var more := ReadTransformations(x.rest, n - 1);
        Read([x.value] + more.value, more.rest)
  }

  lemma TransformationRoundTrip(x: Transformation, t: seq<byte>)
    requires TransformationFits(x)
    ensures ReadTransformation(PutTransformation(x) + t) == Read(x, t)
  {
    hide Int32, ReadInt32, String, ReadString;
    assert PutTransformation(x) + t == Int32(x.kind) + (Int32(x.arrayIndex) + (String(x.member) + t));
    Int32RoundTrip(x.kind, Int32(x.arrayIndex) + (String(x.member) + t));
    Int32RoundTrip(x.arrayIndex, String(x.member) + t);
    StringRoundTrip(x.member, t);
  }

  lemma {:induction false} TransformationsRoundTrip(xs: seq<Transformation>, t: seq<byte>)
    requires TransformationsFit(xs)
    ensures ReadTransformations(Transformations(xs) + t, |xs|) == Read(xs, t)
  {
    hide PutTransformation, ReadTransformation;
    if xs == [] {
      assert Transformations(xs) + t == t;
    } else {
      var more := Transformations(xs[1..]) + t;
      assert Transformations(xs) + t == PutTransformation(xs[0]) + more;
      TransformationRoundTrip(xs[0], more);
      TransformationsRoundTrip(xs[1..], t);
      assert xs == [xs[0]] + xs[1..];
      if more == [] {
        assert |Transformations(xs[1..])| == 0 && |t| == 0;
        assert t == [] && xs[1..] == [] && xs == [xs[0]];
      }
    }
  }

  // ---- Expressions ----

  const VOID := 1
  const UNDEFINED := 2
  const RUNTIME_DEPENDENT := 3
  const LITERAL_CONSTANT := 4
  const ENUMERATOR := 5
  const VARIABLE := 6
  const LOGICAL_OR := 7
  const MULTIPLICATIVE_MOD := 24
  const UNARY_DEC := 25
  const UNARY_NOT := 31

  predicate IsBinaryType(t: int) { LOGICAL_OR <= t <= MULTIPLICATIVE_MOD }

  predicate IsUnaryType(t: int) { UNARY_DEC <= t <= UNARY_NOT }

  predicate ValueFits(v: Value) {
    IsInt32(v.size) && IsInt32(v.flags) && 0 <= v.raw < 0x1_0000_0000_0000_0000
  }

  predicate PayloadFits(p: Payload) {
    match p
    case LiteralConstant(v) => ValueFits(v)
    case Enumerator(v, _, _) => ValueFits(v)
    case Variable(id, _, xs) => IsInt32(id) && |xs| < 0x1_0000_0000 && TransformationsFit(xs)
    case _ => true
  }

  /** All fields hold values of their C++ types. */
  predicate Fits(e: Tree) {
    match e
    case Nil => true
    case Leaf(p, alt) => PayloadFits(p) && Fits(alt)
    case Binary(op, l, r, alt) => IsBinaryType(op) && Fits(l) && Fits(r) && Fits(alt)
    case Unary(op, c, alt) => IsUnaryType(op) && Fits(c) && Fits(alt)
  }

  function LeafType(p: Payload): int {
    match p
    case Void => VOID
    case UndefinedValue => UNDEFINED
    case RuntimeDependent => RUNTIME_DEPENDENT
    case LiteralConstant(_) => LITERAL_CONSTANT
    case Enumerator(_, _, _) => ENUMERATOR
    case Variable(_, _, _) => VARIABLE
  }

  /** The numbers of the node types in a stream. */
  lemma TypeNumbers(p: Payload, t: int)
    ensures LeafType(p) == match p {
              case Void => 1
              case UndefinedValue => 2
              case RuntimeDependent => 3
              case LiteralConstant(_) => 4
              case Enumerator(_, _, _) => 5
              case Variable(_, _, _) => 6
            }
    ensures IsBinaryType(t) <==> 7 <= t <= 24
    ensures IsUnaryType(t) <==> 25 <= t <= 31
  {
  }

  function PutValue(v: Value): seq<byte>
    requires ValueFits(v)
  {
    Int32(v.size) + Int32(v.flags) + UInt64(v.raw)
  }

  function PutPayload(p: Payload): seq<byte>
    requires PayloadFits(p)
  {
    match p
    case LiteralConstant(v) => PutValue(v)
    case Enumerator(v, set_, _) => PutValue(v) + Bool(set_)
    case Variable(id, global, xs) => Int32(id) + Bool(global) + UInt32(|xs|) + Transformations(xs)
    case _ => []
  }

  /** `toStream`: the type, then the alternatives, then the fields of the node's own class. */
  function Encode(e: Tree): seq<byte>
    requires Fits(e)
  {
    match e
    case Nil => Int32(0)
    case Leaf(p, alt) => Int32(LeafType(p)) + Encode(alt) + PutPayload(p)
    case Binary(op, l, r, alt) => Int32(op) + Encode(alt) + Encode(l) + Encode(r)
    case Unary(op, c, alt) => Int32(op) + Encode(alt) + Encode(c)
  }

  function ReadValue(b: seq<byte>): (r: Read<Value>)
    ensures |r.rest| <= |b|
  {
    var size := ReadInt32(b);
    var flags := ReadInt32(size.rest);
    var raw := ReadUInt64(flags.rest);
    Read(Value(size.value, flags.value, raw.value), raw.rest)
  }

  /** The outcome of reading: an exception, or a value and what is left of the stream. */
  datatype Parsed<T> = Thrown | Parsed(value: T, rest: seq<byte>)

  /** `known` are the ids of the types in the symbol factory. */
  function ReadPayload(known: set<int>, t: int, b: seq<byte>): (r: Parsed<Payload>)
    requires VOID <= t <= VARIABLE
    ensures r.Parsed? ==> |r.rest| <= |b|
  {
    if t == VOID then Parsed(Void, b)
    else if t == UNDEFINED then Parsed(UndefinedValue, b)
    else if t == RUNTIME_DEPENDENT then Parsed(RuntimeDependent, b)
    else if t == LITERAL_CONSTANT then
      var v := ReadValue(b);
      Parsed(LiteralConstant(v.value), v.rest)
    else if t == ENUMERATOR then
      var v := ReadValue(b);
      var s := ReadBool(v.rest);
      Parsed(Enumerator(v.value, s.value, 0), s.rest)
    else
      var id := ReadInt32(b);
      var global := ReadBool(id.rest);
      var n := ReadUInt32(global.rest);
      var xs := ReadTransformations(n.rest, n.value);
      if id.value != 0 && id.value !in known then Thrown
      else Parsed(Variable(id.value, global.value, xs.value), xs.rest)
  }

  /** `fromStream`. */
  function Decode(known: set<int>, b: seq<byte>): (r: Parsed<Tree>)
    ensures r.Parsed? ==> |r.rest| <= |b|
    decreases |b|
  {
    var t := ReadInt32(b);
    if t.value == 0 then Parsed(Nil, t.rest)
    else if !(VOID <= t.value <= UNARY_NOT) then Thrown
    else
      match Decode(known, t.rest)
      case Thrown => Thrown
      case Parsed(alt, b1) =>
        if t.value <= VARIABLE then
          match ReadPayload(known, t.value, b1)
          case Thrown => Thrown
          case Parsed(p, b2) => Parsed(Leaf(p, alt), b2)
        else
          match Decode(known, b1)
          case Thrown => Thrown
          case Parsed(c, b2) =>
            if IsUnaryType(t.value) then Parsed(Unary(t.value, c, alt), b2)
            else
              match Decode(known, b2)
              case Thrown => Thrown
              case Parsed(r, b3) => Parsed(Binary(t.value, c, r, alt), b3)
  }

  /** What survives a stream: the symbol behind an enumerator is dropped. */
  function Streamed(e: Tree): Tree {
    match e
    case Nil => Nil
    case Leaf(p, alt) => Leaf(if p.Enumerator? then p.(symbol := 0) else p, Streamed(alt))
    case Binary(op, l, r, alt) => Binary(op, Streamed(l), Streamed(r), Streamed(alt))
    case Unary(op, c, alt) => Unary(op, Streamed(c), Streamed(alt))
  }

  predicate TypesKnown(known: set<int>, e: Tree) {
    match e
    case Nil => true
    case Leaf(p, alt) => (p.Variable? ==> p.typeId == 0 || p.typeId in known) && TypesKnown(known, alt)
    case Binary(_, l, r, alt) => TypesKnown(known, l) && TypesKnown(known, r) && TypesKnown(known, alt)
    case Unary(_, c, alt) => TypesKnown(known, c) && TypesKnown(known, alt)
  }

  lemma ValueRoundTrip(v: Value, t: seq<byte>)
    requires ValueFits(v)
    ensures ReadValue(PutValue(v) + t) == Read(v, t)
  {
    assert PutValue(v) + t == Int32(v.size) + (Int32(v.flags) + (UInt64(v.raw) + t));
    Int32RoundTrip(v.size, Int32(v.flags) + (UInt64(v.raw) + t));
    Int32RoundTrip(v.flags, UInt64(v.raw) + t);
    UInt64RoundTrip(v.raw, t);
  }

  lemma VariableRoundTrip(known: set<int>, p: Payload, t: seq<byte>)
    requires PayloadFits(p) && p.Variable?
    ensures ReadPayload(known, VARIABLE, PutPayload(p) + t) ==
            if p.typeId == 0 || p.typeId in known then Parsed(p, t) else Thrown
  {
    hide Int32, ReadInt32, UInt32, ReadUInt32, Transformations, ReadTransformations;
    var b3 := Transformations(p.transformations) + t;
    var b2 := UInt32(|p.transformations|) + b3;
    var b1 := Bool(p.isGlobal) + b2;
    assert PutPayload(p) + t == Int32(p.typeId) + b1;
    Int32RoundTrip(p.typeId, b1);
    assert ReadBool(b1) == Read(p.isGlobal, b2);
    UInt32RoundTrip(|p.transformations|, b3);
    TransformationsRoundTrip(p.transformations, t);
  }

  lemma PayloadRoundTrip(known: set<int>, p: Payload, t: seq<byte>)
    requires PayloadFits(p)
    ensures ReadPayload(known, LeafType(p), PutPayload(p) + t) ==
            if TypesKnown(known, Leaf(p, Nil)) then Parsed(Streamed(Leaf(p, Nil)).payload, t) else Thrown
  {
    hide PutValue, ReadValue;
    match p {
      case LiteralConstant(v) =>
        ValueRoundTrip(v, t);
      case Enumerator(v, set_, _) =>
        var b1 := Bool(set_) + t;
        assert PutPayload(p) + t == PutValue(v) + b1;
        ValueRoundTrip(v, b1);
        assert ReadBool(b1) == Read(set_, t);
      case Variable(_, _, _) =>
        VariableRoundTrip(known, p, t);
      case _ =>
        assert PutPayload(p) + t == t;
    }
  }

  /** What reading back a written tree is to yield. */
  function ReadBack(known: set<int>, e: Tree, t: seq<byte>): Parsed<Tree> {
    if TypesKnown(known, e) then Parsed(Streamed(e), t) else Thrown
  }

  /**
   * Reading back a written tree of any shape yields the same tree and leaves whatever
   * follows it intact, exactly when every type it mentions is known to the reader.
   */
  lemma {:induction false} StreamRoundTrip(known: set<int>, e: Tree, t: seq<byte>)
    requires Fits(e)
    ensures Decode(known, Encode(e) + t) == if TypesKnown(known, e) then Parsed(Streamed(e), t) else Thrown
    decreases e, 1
  {
    hide Int32, ReadInt32, Encode, Decode, Fits;
    match e {
      case Nil => NilRoundTrip(known, t);
      case Leaf(_, _) => LeafRoundTrip(known, e, t);
      case Binary(_, _, _, _) => BinaryRoundTrip(known, e, t);
      case Unary(_, _, _) => UnaryRoundTrip(known, e, t);
    }
  }

  lemma NilRoundTrip(known: set<int>, t: seq<byte>)
    ensures Decode(known, Encode(Nil) + t) == Parsed(Nil, t)
  {
    hide Int32, ReadInt32;
    Int32RoundTrip(0, t);
  }

  lemma {:induction false} LeafRoundTrip(known: set<int>, e: Tree, t: seq<byte>)
    requires Fits(e) && e.Leaf?
    ensures Decode(known, Encode(e) + t) == ReadBack(known, e, t)
    decreases e, 0
  {
    hide Int32, ReadInt32, PutPayload, ReadPayload;
    var kind, b := LeafType(e.payload), PutPayload(e.payload) + t;
    AssociateFour(Int32(kind), Encode(e.alt), PutPayload(e.payload), t);
    Int32RoundTrip(kind, Encode(e.alt) + b);
    StreamRoundTrip(known, e.alt, b);
    PayloadRoundTrip(known, e.payload, t);
  }

  lemma {:induction false} BinaryRoundTrip(known: set<int>, e: Tree, t: seq<byte>)
    requires Fits(e) && e.Binary?
    ensures Decode(known, Encode(e) + t) == ReadBack(known, e, t)
    decreases e, 0
  {
    hide Int32, ReadInt32, ReadPayload;
    var b2 := Encode(e.right) + t;
    var b1 := Encode(e.left) + b2;
    AssociateFive(Int32(e.op), Encode(e.alt), Encode(e.left), Encode(e.right), t);
    Int32RoundTrip(e.op, Encode(e.alt) + b1);
    StreamRoundTrip(known, e.alt, b1);
    StreamRoundTrip(known, e.left, b2);
    StreamRoundTrip(known, e.right, t);
  }

  lemma {:induction false} UnaryRoundTrip(known: set<int>, e: Tree, t: seq<byte>)
    requires Fits(e) && e.Unary?
    ensures Decode(known, Encode(e) + t) == ReadBack(known, e, t)
    decreases e, 0
  {
    hide Int32, ReadInt32, ReadPayload;
    var b := Encode(e.child) + t;
    AssociateFour(Int32(e.op), Encode(e.alt), Encode(e.child), t);
    Int32RoundTrip(e.op, Encode(e.alt) + b);
    StreamRoundTrip(known, e.alt, b);
    StreamRoundTrip(known, e.child, t);
  }

  /** A node's type comes first, then its alternatives, then its operands, the left one before the right one. */
  lemma OperatorOnTheWire()
    ensures var minus := Binary(21, Leaf(Void, Nil), Leaf(RuntimeDependent, Nil), Leaf(UndefinedValue, Nil));
            Fits(minus)
            && Encode(minus) == Int32(21) + (Int32(2) + Int32(0)) + (Int32(1) + Int32(0)) + (Int32(3) + Int32(0))
  {
    hide Int32;
    forall p: Payload | p.Void? || p.UndefinedValue? || p.RuntimeDependent?
      ensures Encode(Leaf(p, Nil)) == Int32(LeafType(p)) + Int32(0)
    {
      assert Int32(LeafType(p)) + Int32(0) + [] == Int32(LeafType(p)) + Int32(0);
    }
  }

  /** A null string is four bytes of ones, an empty one four bytes of zeros. */
  lemma StringsOnTheWire()
    ensures String(NullText) == [0xff, 0xff, 0xff, 0xff] && String(Text([])) == [0, 0, 0, 0]
  {
  }

  /** A constant's fields are its size, its kind and its value. */
  lemma ConstantOnTheWire()
    ensures var number := Leaf(LiteralConstant(Value(4, 1, 7)), Leaf(Void, Nil));
            Fits(number)
            && Encode(number) == Int32(4) + (Int32(1) + Int32(0)) + (Int32(4) + Int32(1) + (Int32(0) + Int32(7)))
  {
    assert UInt64(7) == Int32(0) + Int32(7);
    hide Int32, UInt64;
    assert Encode(Leaf(Void, Nil)) == Int32(1) + Int32(0) + [];
  }

  /** A variable's fields are its type, whether it is global, and its transformations with their number. */
  lemma VariableOnTheWire()
    ensures var variable := Leaf(Variable(9, true, [Transformation(3, -1, Text([104]))]), Nil);
            Fits(variable)
            && Encode(variable) == Int32(6) + Int32(0)
                 + (Int32(9) + [1] + Int32(1) + (Int32(3) + Int32(-1) + (Int32(2) + [0, 104])))
  {
    var x := Transformation(3, -1, Text([104]));
    assert UInt32(1) == Int32(1) && UInt32(2) == Int32(2);
    assert Chars([104]) == UInt16(104) + [] == [0, 104] by { assert [104][1..] == []; }
    hide Int32, UInt32, Chars;
    assert String(x.member) == Int32(2) + [0, 104];
    assert Transformations([x]) == PutTransformation(x) + [] by { assert [x][1..] == []; }
  }

  /** Whatever is read past the end is zero, and nothing is left then. */
  lemma PastTheEnd(b: seq<byte>)
    ensures |b| < 2 ==> ReadUInt16(b) == Read(0, [])
    ensures |b| < 4 ==> ReadUInt32(b) == Read(0, []) && ReadInt32(b) == Read(0, [])
    ensures |b| < 8 ==> ReadUInt64(b) == Read(0, [])
    ensures |b| < 1 ==> ReadBool(b) == Read(false, [])
  {
  }

  /** Text that ends in the middle reads as zeros, and zero is a null pointer; unknown node types are refused. */
  lemma OtherStreams(known: set<int>, b: seq<byte>)
    ensures |b| < 4 ==> Decode(known, b) == Parsed(Nil, [])
    ensures |b| >= 4 && 31 < FromBig(b[..4]) ==> Decode(known, b) == Thrown
  {
    if |b| >= 4 {
      FirstNumber(b);
    }
  }

  lemma FirstNumber(b: seq<byte>)
    requires |b| >= 4
    ensures ReadUInt32(b) == Read(FromBig(b[..4]), b[4..])
  {
    var four, three := b[..4], b[..3];
    assert four[..3] == three && three[..2] == [b[0], b[1]];
    TwoBytes(b[0], b[1]);
    assert b[2..][0] == b[2] && b[2..][1] == b[3];
  }

  /** A variable of type 1, read where no type is known. */
  lemma UnknownTypeThrows()
    ensures var e := Leaf(Variable(1, true, []), Nil);
            Fits(e) && Decode({}, Encode(e)) == Thrown
  {
    var e := Leaf(Variable(1, true, []), Nil);
    hide Encode, Decode;
    StreamRoundTrip({}, e, []);
    assert Encode(e) + [] == Encode(e);
  }

  /** A stream object: writing appends to `data`, reading removes from its front. */
  class KernelSymbolStream {
    var data: seq<byte>

    constructor ()
      ensures data == []
    {
      data := [];
    }

    method ToStream(e: Tree)
      requires Fits(e)
      modifies this
      ensures data == old(data) + Encode(e)
      decreases e
    {
      hide Int32, PutPayload;
      ghost var before := data;
      assert forall a, b: seq<byte> :: before + a + b == before + (a + b);
      match e {
        case Nil =>
          data := data + Int32(0);
        case Leaf(p, alt) =>
          data := data + Int32(LeafType(p));
          ToStream(alt);
          assert data == before + (Int32(LeafType(p)) + Encode(alt));
          data := data + PutPayload(p);
        case Binary(op, l, r, alt) =>
          data := data + Int32(op);
          ToStream(alt);
          assert data == before + (Int32(op) + Encode(alt));
          ToStream(l);
          assert data == before + (Int32(op) + Encode(alt) + Encode(l));
          ToStream(r);
        case Unary(op, c, alt) =>
          data := data + Int32(op);
          ToStream(alt);
          assert data == before + (Int32(op) + Encode(alt));
          ToStream(c);
      }
    }

    /** An exception leaves the stream somewhere inside the bad tree. */
    method FromStream(known: set<int>) returns (r: Parsed<Tree>)
      modifies this
      ensures r == Decode(known, old(data))
      ensures r.Parsed? ==> data == r.rest
      decreases |data|
    {
      var t := ReadInt32(data);
      data := t.rest;
      if t.value == 0 {
        return Parsed(Nil, data);
      }
      if !(VOID <= t.value <= UNARY_NOT) {
        return Thrown;
      }
      var alt := FromStream(known);
      if alt.Thrown? {
        return Thrown;
      }
      if t.value <= VARIABLE {
        var p := ReadPayload(known, t.value, data);
        if p.Thrown? {
          return Thrown;
        }
        data := p.rest;
        return Parsed(Leaf(p.value, alt.value), data);
      }
      var c := FromStream(known);
      if c.Thrown? {
        return Thrown;
      }
      if IsUnaryType(t.value) {
        return Parsed(Unary(t.value, c.value, alt.value), data);
      }
      var right := FromStream(known);
      if right.Thrown? {
        return Thrown;
      }
      r := Parsed(Binary(t.value, c.value, right.value, alt.value), data);
    }
  }
}
