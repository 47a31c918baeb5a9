/**
 * Evaluation of constant expression trees on the 64-bit union, and the proof that it
 * agrees with C on a machine with 32-bit int and 64-bit long.
 */
module ExpressionEvaluation {
  import opened MachineIntegers
  import opened ExpressionResults

  datatype Truth = LogicalOr | LogicalAnd | Equal | Unequal | GreaterEqual | Greater | LessEqual | Less
  datatype Arithmetic = Plus | Minus | Times
  datatype Direction = ToLeft | ToRight

  datatype BinaryOp = Logical(t: Truth) | Bits2(b: BitOp) | Arith(a: Arithmetic) | Shift(d: Direction)
  datatype UnaryOp = Negate | Invert | Not

  /** `Unset` is a null child pointer, `Opaque` a leaf that is no compile-time constant. */
  datatype Expr =
    | Unset
    | Literal(size: Size, raw: Word)
    | Opaque(isRuntime: bool)
    | Binary(op: BinaryOp, left: Expr, right: Expr)
    | Unary(uop: UnaryOp, child: Expr)

  // ---- The evaluator ----

  const UNDECIDABLE := {Runtime, Undefined}

  predicate Decidable(flags: set<ResultFlag>) { flags !! UNDECIDABLE }

  /** `binaryExprSize`, integers only. */
  function BinaryExprSize(s: Size, t: Size): Size {
    var p := if s.width == W8 || s.width == W16 then INT32 else s;
    var q := if t.width == W8 || t.width == W16 then INT32 else t;
    if p == UINT64 || q == UINT64 then UINT64
    else if p.width == W64 || q.width == W64 then INT64
    else if p.isUnsigned || q.isUnsigned then UINT32
    else INT32
  }

  function Decide(op: Truth, x: int, y: int): bool {
    match op
    case LogicalOr => x != 0 || y != 0
    case LogicalAnd => x != 0 && y != 0
    case Equal => x == y
    case Unequal => x != y
    case GreaterEqual => x >= y
    case Greater => x > y
    case LessEqual => x <= y
    case Less => x < y
  }

  function Compute(op: Arithmetic, x: int, y: int): int {
    match op case Plus => x + y case Minus => x - y case Times => x * y
  }

  function Displace(d: Direction, x: int, n: nat): int {
    if d == ToLeft then x * Power2(n) else x / Power2(n)
  }

  /** The operand as the 64-bit integer that a macro of `result` computes with. */
  function Operand(r: ExpressionResult, target: Size): int {
    if target.isUnsigned then UValue(r, Some(target)) else Signed(Value(r, Some(target)), W64)
  }

  function ApplyBinary(op: BinaryOp, l: ExpressionResult, r: ExpressionResult): ExpressionResult {
    var flags := l.flags + r.flags;
    var target := BinaryExprSize(l.size, r.size);
    if !Decidable(flags) then ExpressionResult(flags + {Undefined}, target, 0)
    else
      match op
      case Logical(t) =>
        ExpressionResult(flags, UINT8, if Decide(t, Operand(l, target), Operand(r, target)) then 1 else 0)
      case Bits2(b) =>
        ExpressionResult(flags, target, ToWord(Bitwise(b, Value(l, Some(target)), Value(r, Some(target)), 64)))
      case Arith(a) =>
        ExpressionResult(flags, target, ToWord(Compute(a, Operand(l, target), Operand(r, target))))
      case Shift(d) =>
        // The processor takes the count modulo 64.
        var x := if l.size.isUnsigned then UValue(l, None) else Signed(Value(l, None), W64);
        ExpressionResult(flags, l.size, ToWord(Displace(d, x, Value(r, None) % 64)))
  }

  /** Writing the 32-bit member of the union leaves its upper half alone. */
  function WithLow32(raw: Word, x: int): Word {
    raw / 0x1_0000_0000 * 0x1_0000_0000 + Low(x, W32)
  }

  function ApplyUnary(op: UnaryOp, r: ExpressionResult): ExpressionResult {
    if !Decidable(r.flags) then r.(flags := r.flags + {Undefined})
    else
      match op
      case Negate => r.(raw := ToWord(0 - r.raw))
      case Invert =>
        if r.size.width == W8 || r.size.width == W16 then
          r.(size := INT32, raw := WithLow32(r.raw, -1 - Signed(Value(r, Some(INT32)), W64)))
        else
          ExpressionResult(r.flags,
                           if r.size == INT64 && Signed(r.raw, W64) < 0 then UINT64 else r.size,
                           TWO_64 - 1 - r.raw)
      case Not =>
        r.(size := UINT8, raw := WithLow32(r.raw, if UValue(r, None) == 0 then 1 else 0))
  }

  function Evaluate(e: Expr): ExpressionResult {
    match e
    case Unset => ExpressionResult({Undefined}, INT32, 0)
    case Opaque(isRuntime) => ExpressionResult({if isRuntime then Runtime else Undefined}, INT32, 0)
    case Literal(size, raw) => ExpressionResult({Constant}, size, raw)
    case Binary(op, l, r) =>
      if l.Unset? || r.Unset? then ExpressionResult({Undefined}, INT32, 0)
      else ApplyBinary(op, Evaluate(l), Evaluate(r))
    case Unary(op, c) =>
      if c.Unset? then ExpressionResult({Undefined}, INT32, 0)
      else ApplyUnary(op, Evaluate(c))
  }

  // ---- C ----

  datatype CValue = CValue(ty: Size, v: int)

  function Least(t: Size): int { if t.isUnsigned then 0 else -(Modulus(t.width) / 2) }

  function Greatest(t: Size): int { if t.isUnsigned then Modulus(t.width) - 1 else Modulus(t.width) / 2 - 1 }

  /** Integer promotion, section 6.3.1.1 of ISO C99: int if it holds every value of the type. */
  function Promote(t: Size): Size { if IntHolds(t) then INT32 else t }

  predicate IntHolds(t: Size)
    ensures IntHolds(t) <==> Bits(t.width) < Bits(W32) || t == INT32
  {
    InRange(Least(t), INT32) && InRange(Greatest(t), INT32)
  }

  /** The usual arithmetic conversions, section 6.3.1.8 of ISO C99. */
  function CommonType(s: Size, t: Size): Size {
    var p, q := Promote(s), Promote(t);
    if p == q then p
    else if p.isUnsigned == q.isUnsigned then if Bits(p.width) > Bits(q.width) then p else q
    else
      var u, i := if p.isUnsigned then p else q, if p.isUnsigned then q else p;
      if Bits(u.width) >= Bits(i.width) then u else i
  }

  /** Sections 6.5.8, 6.5.9, 6.5.13 and 6.5.14 of ISO C99: only comparisons convert their operands. */
  predicate CHolds(c: Truth, x: CValue, y: CValue) {
    var t := CommonType(x.ty, y.ty);
    var a, b := Convert(x.v, t), Convert(y.v, t);
    match c
    case LogicalOr => x.v != 0 || y.v != 0
    case LogicalAnd => x.v != 0 && y.v != 0
    case Equal => a == b
    case Unequal => a != b
    case GreaterEqual => b <= a
    case Greater => b < a
    case LessEqual => a <= b
    case Less => a < b
  }

  function CBinary(op: BinaryOp, x: CValue, y: CValue): CValue {
    var t := CommonType(x.ty, y.ty);
    var a, b := Convert(x.v, t), Convert(y.v, t);
    match op
    case Logical(c) => CValue(INT32, if CHolds(c, x, y) then 1 else 0)
    case Bits2(o) => CValue(t, Convert(Bitwise(o, Low(a, t.width), Low(b, t.width), Bits(t.width)), t))
    case Arith(Plus) => CValue(t, Convert(a + b, t))
    case Arith(Minus) => CValue(t, Convert(a - b, t))
    case Arith(Times) => CValue(t, Convert(a * b, t))
    case Shift(d) =>
      var p := Promote(x.ty);
      var n := if y.v < 0 then 0 else y.v;
      CValue(p, Convert(if d == ToLeft then Convert(x.v, p) * Power2(n) else Convert(x.v, p) / Power2(n), p))
  }

  /** C leaves a shift undefined unless the count is below the width of the promoted left operand. */
  predicate CDefined(op: BinaryOp, x: CValue, y: CValue) {
    op.Shift? ==> 0 <= y.v < Bits(Promote(x.ty).width)
  }

  function CUnary(op: UnaryOp, x: CValue): CValue {
    var p := Promote(x.ty);
    match op
    case Negate => CValue(p, Convert(-Convert(x.v, p), p))
    case Invert => CValue(p, Convert(-1 - Convert(x.v, p), p))
    case Not => CValue(INT32, if x.v == 0 then 1 else 0)
  }

  /** A tree of constants with both operands set everywhere. */
  predicate Closed(e: Expr) {
    match e
    case Literal(_, _) => true
    case Binary(_, l, r) => Closed(l) && Closed(r)
    case Unary(_, c) => Closed(c)
    case _ => false
  }

  function CEvaluate(e: Expr): CValue
    requires Closed(e)
  {
    match e
    case Literal(size, raw) => CValue(size, Convert(raw, size))
    case Binary(op, l, r) => CBinary(op, CEvaluate(l), CEvaluate(r))
    case Unary(op, c) => CUnary(op, CEvaluate(c))
  }

  predicate CDefinedTree(e: Expr)
    requires Closed(e)
  {
    match e
    case Literal(_, _) => true
    case Binary(op, l, r) => CDefinedTree(l) && CDefinedTree(r) && CDefined(op, CEvaluate(l), CEvaluate(r))
    case Unary(_, c) => CDefinedTree(c)
  }

  // ---- Refinement ----

  /** The result read at its reported size is the C value, and both promote to the same type. */
  predicate Refines(r: ExpressionResult, c: CValue) {
    Decidable(r.flags) && ValueOf(r) == c.v && Promote(r.size) == Promote(c.ty) && InRange(c.v, c.ty)
  }

  /** A result with `raw` replaced by anything that keeps its low bits denotes the same value. */
  lemma StaleBitsDoNotMatter(flags: set<ResultFlag>, x: int, v: int, t: Size)
    requires Low(x, t.width) == Low(v, t.width)
    ensures ValueOf(ExpressionResult(flags, t, ToWord(x))) == Convert(v, t)
  {
    LowOfWord(x, t.width);
    LowDeterminesValue(ToWord(x), v, t);
  }

  lemma CommonTypeAgrees(l: ExpressionResult, r: ExpressionResult, x: CValue, y: CValue)
    requires Refines(l, x) && Refines(r, y)
    ensures CommonType(x.ty, y.ty) == BinaryExprSize(l.size, r.size)
  {
    hide IntHolds;
  }

  lemma CommonSizeIsWide(s: Size, other: Size)
    ensures BinaryExprSize(s, other) == BinaryExprSize(other, s)
    ensures HoldsAll(BinaryExprSize(s, other), s)
  {
  }

  predicate HoldsAll(t: Size, s: Size) {
    Bits(t.width) > Bits(s.width) || t == s || (t.isUnsigned && t.width == s.width)
  }

  lemma OperandIsValue(r: ExpressionResult, t: Size)
    ensures Operand(r, t) == Convert(Value(r, Some(t)), Size(W64, t.isUnsigned))
  {
    ValueEqualsUValue(r, t);
    hide Value, UValue;
    assert Low(Value(r, Some(t)), W64) == Value(r, Some(t));
  }

  /** What each macro reads from an operand once the common type is fixed. */
  lemma OperandIsConverted(r: ExpressionResult, other: Size, target: Size)
    requires target == BinaryExprSize(r.size, other) || target == BinaryExprSize(other, r.size)
    ensures Operand(r, target) == Convert(ValueOf(r), target)
    ensures Operand(r, target) != 0 <==> ValueOf(r) != 0
  {
    CommonSizeIsWide(r.size, other);
    ValueExactWhenWide(r, target);
    OperandIsValue(r, target);
    ConvertIdentity(r.raw, r.size);
    ZeroIsKept(ValueOf(r), r.size, target);
  }

  lemma ZeroIsKept(v: int, s: Size, t: Size)
    requires Bits(s.width) <= Bits(t.width) && InRange(v, s)
    ensures v != 0 <==> Convert(v, t) != 0
  {
    LowDeterminesValue(v, 0, t);
  }

  // ---- One lemma per kind of node ----

  lemma LogicalRefines(op: Truth, l: ExpressionResult, r: ExpressionResult, x: CValue, y: CValue)
    requires Refines(l, x) && Refines(r, y)
    ensures Refines(ApplyBinary(Logical(op), l, r), CBinary(Logical(op), x, y))
  {
    CommonTypeAgrees(l, r, x, y);
    OperandIsConverted(l, r.size, BinaryExprSize(l.size, r.size));
    OperandIsConverted(r, l.size, BinaryExprSize(l.size, r.size));
    hide Operand, BinaryExprSize, CommonType;
  }

  lemma ArithmeticRefines(op: Arithmetic, l: ExpressionResult, r: ExpressionResult, x: CValue, y: CValue)
    requires Refines(l, x) && Refines(r, y)
    ensures Refines(ApplyBinary(Arith(op), l, r), CBinary(Arith(op), x, y))
  {
    var t := BinaryExprSize(l.size, r.size);
    CommonTypeAgrees(l, r, x, y);
    OperandIsConverted(l, r.size, t);
    OperandIsConverted(r, l.size, t);
    var exact := Compute(op, Convert(x.v, t), Convert(y.v, t));
    StaleBitsDoNotMatter(l.flags + r.flags, exact, exact, t);
    ConvertIdentity(exact, t);
  }

  lemma BitwiseFits(op: BitOp, a: nat, b: nat, w: Width)
    ensures Low(Bitwise(op, a, b, Bits(w)), w) == Bitwise(op, a, b, Bits(w))
  {
    ModulusIsPower(w);
    ModUnique(Bitwise(op, a, b, Bits(w)), Modulus(w), 0, Bitwise(op, a, b, Bits(w)));
  }

  lemma BitwiseRefines(op: BitOp, l: ExpressionResult, r: ExpressionResult, x: CValue, y: CValue)
    requires Refines(l, x) && Refines(r, y)
    ensures Refines(ApplyBinary(Bits2(op), l, r), CBinary(Bits2(op), x, y))
  {
    var t := BinaryExprSize(l.size, r.size);
    var a, b := Value(l, Some(t)), Value(r, Some(t));
    CommonTypeAgrees(l, r, x, y);
    ValueCongruent(l, t);
    ValueCongruent(r, t);
    var exact := Bitwise(op, Low(a, t.width), Low(b, t.width), Bits(t.width));
    assert CBinary(Bits2(op), x, y) == CValue(t, Convert(exact, t));
    LowOfBitwise(op, a, b, t.width);
    BitwiseFits(op, Low(a, t.width), Low(b, t.width), t.width);
    StaleBitsDoNotMatter(l.flags + r.flags, Bitwise(op, a, b, 64), exact, t);
    ConvertIdentity(exact, t);
  }

  predicate Narrow(t: Size) { t.width == W8 || t.width == W16 }

  /** Where the code, which does not promote the left operand of a shift, still meets C. */
  predicate ShiftFits(d: Direction, l: ExpressionResult, r: ExpressionResult) {
    (d == ToLeft && Narrow(l.size) && ValueOf(r) >= 0) ==>
      InRange(Convert(ValueOf(l) * Power2(ValueOf(r)), INT32), l.size)
  }

  lemma ShiftCount(r: ExpressionResult)
    requires 0 <= ValueOf(r) < 64
    ensures Value(r, None) % 64 == ValueOf(r)
  {
    match r.size.width case W8 => case W16 => case W32 => case W64 =>
  }

  lemma ShiftedValue(l: ExpressionResult)
    ensures (if l.size.isUnsigned then UValue(l, None) else Signed(Value(l, None), W64)) == ValueOf(l)
  {
    match l.size.width case W8 => case W16 => case W32 => case W64 =>
  }

  lemma ProductBeyond(q: int, d: int)
    requires d >= 1
    ensures q >= 0 ==> q * d >= q
    ensures q <= 0 ==> q * d <= q
    decreases d
  {
    if d > 1 {
      ProductBeyond(q, d - 1);
      assert q * d == q * (d - 1) + q;
    }
  }

  lemma QuotientBetween(v: int, d: int)
    requires d > 0
    ensures v >= 0 ==> 0 <= v / d <= v
    ensures v < 0 ==> v <= v / d < 0
  {
    var q, r := v / d, v % d;
    assert v == q * d + r && 0 <= r < d;
    ProductBeyond(q, d);
    ProductBeyond(q + 1, d);
    assert (q + 1) * d == q * d + d;
  }

  lemma QuotientStaysInRange(v: int, d: nat, t: Size)
    requires InRange(v, t) && d > 0
    ensures InRange(v / d, t)
  {
    QuotientBetween(v, d);
    match t.width case W8 => case W16 => case W32 => case W64 =>
  }

  lemma NarrowedTwice(v: int, t: Size)
    requires Narrow(t)
    ensures Convert(Convert(v, INT32), t) == Convert(v, t)
  {
    ConvertIdentity(v, INT32);
    ConvertIdentity(Convert(v, INT32), t);
    var k := SameLowDiffer(Convert(v, INT32), v, W32);
    var c := if t.width == W8 then 0x100_0000 else 0x1_0000;
    assert k * 0x1_0000_0000 == (k * c) * Modulus(t.width);
    LowPlusMultiple(v, k * c, t.width);
    LowDeterminesValue(Convert(v, INT32), v, t);
  }

  /** Reading at the narrow size agrees with reading at int exactly when the int value fits. */
  lemma NarrowAgrees(v: int, t: Size)
    requires Narrow(t)
    ensures Convert(v, t) == Convert(v, INT32) <==> InRange(Convert(v, INT32), t)
  {
    NarrowedTwice(v, t);
    ConvertIdentity(Convert(v, INT32), t);
  }

  lemma ShiftRefines(d: Direction, l: ExpressionResult, r: ExpressionResult, x: CValue, y: CValue)
    requires Refines(l, x) && Refines(r, y) && CDefined(Shift(d), x, y)
    ensures Refines(ApplyBinary(Shift(d), l, r), CBinary(Shift(d), x, y)) <==> ShiftFits(d, l, r)
  {
    hide IntHolds;
    var n := ValueOf(r);
    var exact := Displace(d, ValueOf(l), n);
    ShiftApplied(d, l, r);
    ShiftInC(d, l, x, y);
    if Narrow(l.size) {
      NarrowAgrees(exact, l.size);
      if d == ToRight {
        ConvertIdentity(l.raw, l.size);
        QuotientStaysInRange(ValueOf(l), Power2(n), l.size);
        ConvertIdentity(exact, INT32);
      }
    }
  }

  lemma ShiftApplied(d: Direction, l: ExpressionResult, r: ExpressionResult)
    requires Decidable(l.flags) && Decidable(r.flags) && 0 <= ValueOf(r) < 64
    ensures var s := ApplyBinary(Shift(d), l, r);
            Decidable(s.flags) && s.size == l.size
            && ValueOf(s) == Convert(Displace(d, ValueOf(l), ValueOf(r)), l.size)
  {
    ShiftCount(r);
    ShiftedValue(l);
    hide Value, UValue, Displace, Convert, BinaryExprSize;
    var exact := Displace(d, ValueOf(l), ValueOf(r));
    StaleBitsDoNotMatter(l.flags + r.flags, exact, exact, l.size);
  }

  lemma ShiftInC(d: Direction, l: ExpressionResult, x: CValue, y: CValue)
    requires Refines(l, x) && y.v >= 0
    ensures var p := Promote(l.size);
            CBinary(Shift(d), x, y) == CValue(p, Convert(Displace(d, ValueOf(l), y.v), p))
            && InRange(Convert(Displace(d, ValueOf(l), y.v), p), p)
  {
    var p := Promote(x.ty);
    ConvertIdentity(l.raw, l.size);
    ConvertIdentity(x.v, p);
    ConvertIdentity(Displace(d, ValueOf(l), y.v), p);
  }

  /** Where unary minus, not promoted either, and `~`, which turns a negative long unsigned, meet C. */
  predicate UnaryFits(op: UnaryOp, r: ExpressionResult) {
    match op
    case Negate => Narrow(r.size) ==> InRange(-ValueOf(r), r.size)
    case Invert => r.size == INT64 ==> ValueOf(r) >= 0
    case Not => true
  }

  lemma LowOfNegation(x: int, v: int, w: Width)
    requires Low(x, w) == Low(v, w)
    ensures Low(0 - x, w) == Low(-v, w) && Low(-1 - x, w) == Low(-1 - v, w)
  {
    LowOfSum(0, x, 0, v, w);
    LowOfSum(-1, x, -1, v, w);
  }

  lemma NegatedValue(r: ExpressionResult)
    ensures ValueOf(r.(raw := ToWord(0 - r.raw))) == Convert(-ValueOf(r), r.size)
  {
    ConvertIdentity(r.raw, r.size);
    LowOfNegation(r.raw, ValueOf(r), r.size.width);
    StaleBitsDoNotMatter(r.flags, 0 - r.raw, -ValueOf(r), r.size);
  }

  lemma CNegated(x: CValue)
    requires InRange(x.v, x.ty)
    ensures CUnary(Negate, x) == CValue(Promote(x.ty), Convert(-x.v, Promote(x.ty)))
    ensures CUnary(Invert, x) == CValue(Promote(x.ty), Convert(-1 - x.v, Promote(x.ty)))
  {
    hide IntHolds;
    ConvertIdentity(x.v, Promote(x.ty));
  }

  lemma NegateRefines(r: ExpressionResult, x: CValue)
    requires Refines(r, x)
    ensures Refines(ApplyUnary(Negate, r), CUnary(Negate, x)) <==> UnaryFits(Negate, r)
  {
    hide IntHolds;
    hide CUnary, Convert, ToWord;
    var p, v := Promote(x.ty), ValueOf(r);
    CNegated(x);
    ConvertIdentity(-v, p);
    NegatedValue(r);
    if Narrow(r.size) {
      NarrowAgrees(-v, r.size);
      ConvertIdentity(-v, r.size);
      NarrowNegationFits(r);
    }
  }

  lemma NarrowNegationFits(r: ExpressionResult)
    requires Narrow(r.size)
    ensures Convert(-ValueOf(r), INT32) == -ValueOf(r)
  {
    ConvertIdentity(r.raw, r.size);
    ConvertIdentity(-ValueOf(r), INT32);
  }

  lemma LowHalfWritten(raw: Word, x: int, flags: set<ResultFlag>)
    ensures Low(WithLow32(raw, x), W32) == Low(x, W32)
    ensures 0 <= x < 0x100 ==> Low(WithLow32(raw, x), W8) == x
    ensures ValueOf(ExpressionResult(flags, INT32, WithLow32(raw, x))) == Convert(x, INT32)
  {
    var k := raw / 0x1_0000_0000;
    LowPlusMultiple(Low(x, W32), k, W32);
    LowIsIdentity(Low(x, W32), W32);
    LowDeterminesValue(WithLow32(raw, x), x, INT32);
    LowByteWritten(raw, x);
  }

  lemma LowByteWritten(raw: Word, x: int)
    ensures 0 <= x < 0x100 ==> Low(WithLow32(raw, x), W8) == x
  {
    var k := raw / 0x1_0000_0000;
    LowPlusMultiple(x, k * 0x100_0000, W8);
    assert k * 0x1_0000_0000 == (k * 0x100_0000) * 0x100;
  }

  lemma InvertedValue(r: ExpressionResult)
    requires !Narrow(r.size) && Decidable(r.flags)
    ensures ValueOf(ApplyUnary(Invert, r).(size := r.size)) == Convert(-1 - ValueOf(r), r.size)
  {
    ConvertIdentity(r.raw, r.size);
    LowOfNegation(r.raw, ValueOf(r), r.size.width);
    assert ToWord(-1 - r.raw) == TWO_64 - 1 - r.raw;
    StaleBitsDoNotMatter(r.flags, -1 - r.raw, -1 - ValueOf(r), r.size);
  }

  lemma InvertedNarrowValue(r: ExpressionResult)
    requires Narrow(r.size) && Decidable(r.flags)
    ensures ValueOf(ApplyUnary(Invert, r)) == Convert(-1 - ValueOf(r), INT32)
  {
    OperandIsConverted(r, r.size, INT32);
    ConvertIdentity(r.raw, r.size);
    ConvertIdentity(ValueOf(r), INT32);
    LowHalfWritten(r.raw, -1 - ValueOf(r), r.flags);
  }

  lemma InvertRefines(r: ExpressionResult, x: CValue)
    requires Refines(r, x)
    ensures Refines(ApplyUnary(Invert, r), CUnary(Invert, x)) <==> UnaryFits(Invert, r)
  {
    hide IntHolds;
    CNegated(x);
    ConvertIdentity(-1 - ValueOf(r), Promote(x.ty));
    if Narrow(r.size) {
      InvertedNarrowValue(r);
    } else {
      InvertedValue(r);
    }
    hide CUnary;
  }

  lemma NotRefines(r: ExpressionResult, x: CValue)
    requires Refines(r, x)
    ensures Refines(ApplyUnary(Not, r), CUnary(Not, x))
  {
    var b := if UValue(r, None) == 0 then 1 else 0;
    LowHalfWritten(r.raw, b, r.flags);
    LowDeterminesValue(r.raw, 0, r.size);
  }

  // ---- Whole trees ----

  predicate EveryNodeRefines(e: Expr)
    requires Closed(e)
  {
    && Refines(Evaluate(e), CEvaluate(e))
    && match e
       case Literal(_, _) => true
       case Binary(_, l, r) => EveryNodeRefines(l) && EveryNodeRefines(r)
       case Unary(_, c) => EveryNodeRefines(c)
  }

  predicate EveryNodeFits(e: Expr)
    requires Closed(e)
  {
    match e
    case Literal(_, _) => true
    case Binary(op, l, r) =>
      EveryNodeFits(l) && EveryNodeFits(r) && (op.Shift? ==> ShiftFits(op.d, Evaluate(l), Evaluate(r)))
    case Unary(op, c) => EveryNodeFits(c) && UnaryFits(op, Evaluate(c))
  }

  /**
   * Evaluation on the union equals C evaluation at every node of a tree exactly when
   * each left shift and unary operator in it satisfies its condition.
   */
  lemma {:induction false} EvaluationRefinesC(e: Expr)
    requires Closed(e) && CDefinedTree(e)
    ensures EveryNodeRefines(e) <==> EveryNodeFits(e)
  {
    match e {
      case Literal(size, raw) =>
        ConvertIdentity(raw, size);
      case Binary(op, l, r) =>
        EvaluationRefinesC(l);
        EvaluationRefinesC(r);
        if EveryNodeRefines(l) && EveryNodeRefines(r) {
          var a, b, x, y := Evaluate(l), Evaluate(r), CEvaluate(l), CEvaluate(r);
          match op {
            case Logical(t) => LogicalRefines(t, a, b, x, y);
            case Arith(o) => ArithmeticRefines(o, a, b, x, y);
            case Bits2(o) => BitwiseRefines(o, a, b, x, y);
            case Shift(d) => ShiftRefines(d, a, b, x, y);
          }
        }
      case Unary(op, c) =>
        EvaluationRefinesC(c);
        if EveryNodeRefines(c) {
          match op {
            case Negate => NegateRefines(Evaluate(c), CEvaluate(c));
            case Invert => InvertRefines(Evaluate(c), CEvaluate(c));
            case Not => NotRefines(Evaluate(c), CEvaluate(c));
          }
        }
    }
  }

  /** The size at which the result of a tree is reported, as long as no `~` turns a negative long unsigned. */
  function ResultSize(e: Expr): Size
    requires Closed(e)
  {
    match e
    case Literal(size, _) => size
    case Binary(Logical(_), _, _) => UINT8
    case Binary(Shift(_), l, _) => ResultSize(l)
    case Binary(_, l, r) => BinaryExprSize(ResultSize(l), ResultSize(r))
    case Unary(Negate, c) => ResultSize(c)
    case Unary(Invert, c) => if Narrow(ResultSize(c)) then INT32 else ResultSize(c)
    case Unary(Not, _) => UINT8
  }

  /** What C computes fits a type that the code did not promote, and no negative long is inverted. */
  predicate ValuesFit(e: Expr)
    requires Closed(e)
  {
    match e
    case Literal(_, _) => true
    case Binary(op, l, r) =>
      && ValuesFit(l) && ValuesFit(r)
      && (op == Shift(ToLeft) && Narrow(ResultSize(l)) && CEvaluate(r).v >= 0 ==>
            InRange(Convert(CEvaluate(l).v * Power2(CEvaluate(r).v), INT32), ResultSize(l)))
    case Unary(op, c) =>
      && ValuesFit(c)
      && (op == Negate && Narrow(ResultSize(c)) ==> InRange(-CEvaluate(c).v, ResultSize(c)))
      && (op == Invert && ResultSize(c) == INT64 ==> CEvaluate(c).v >= 0)
  }

  lemma {:induction false} SizeIsSyntactic(e: Expr)
    requires Closed(e) && EveryNodeFits(e)
    ensures Decidable(Evaluate(e).flags) && Evaluate(e).size == ResultSize(e)
  {
    DecidableIffClosed(e);
    match e {
      case Literal(_, _) =>
      case Binary(op, l, r) =>
        DecidableIffClosed(l);
        DecidableIffClosed(r);
        SizeIsSyntactic(l);
        SizeIsSyntactic(r);
      case Unary(_, c) =>
        DecidableIffClosed(c);
        SizeIsSyntactic(c);
    }
  }

  lemma {:induction false} FitsByValues(e: Expr)
    requires Closed(e) && CDefinedTree(e)
    ensures EveryNodeFits(e) <==> ValuesFit(e)
  {
    match e {
      case Literal(_, _) =>
      case Binary(_, l, r) =>
        FitsByValues(l);
        FitsByValues(r);
        if EveryNodeFits(l) && EveryNodeFits(r) {
          NodeIsKnown(l);
          NodeIsKnown(r);
        }
      case Unary(_, c) =>
        FitsByValues(c);
        if EveryNodeFits(c) { NodeIsKnown(c); }
    }
  }

  lemma NodeIsKnown(e: Expr)
    requires Closed(e) && CDefinedTree(e) && EveryNodeFits(e)
    ensures Evaluate(e).size == ResultSize(e) && ValueOf(Evaluate(e)) == CEvaluate(e).v
  {
    hide EveryNodeFits, CDefinedTree, ResultSize, ValueOf, Promote;
    SizeIsSyntactic(e);
    EvaluationRefinesC(e);
  }

  /**
   * The same with the condition in terms of the tree and of the values C computes: evaluation agrees
   * with C at every node exactly if no value outgrows an unpromoted type and no negative long is inverted.
   */
  lemma AgreesWithCIff(e: Expr)
    requires Closed(e) && CDefinedTree(e)
    ensures EveryNodeRefines(e) <==> ValuesFit(e)
  {
    EvaluationRefinesC(e);
    FitsByValues(e);
  }

  /** Trees of `+ - *`, `& | ^`, `&& || !` and comparisons: nothing more is asked of them. */
  predicate Plain(e: Expr) {
    match e
    case Literal(_, _) => true
    case Binary(op, l, r) => !op.Shift? && Plain(l) && Plain(r)
    case Unary(op, c) => op == Not && Plain(c)
    case _ => false
  }

  lemma {:induction false} PlainTreesRefineC(e: Expr)
    requires Plain(e)
    ensures Closed(e) && CDefinedTree(e) && EveryNodeFits(e)
    ensures Refines(Evaluate(e), CEvaluate(e))
  {
    match e {
      case Literal(_, _) =>
      case Binary(_, l, r) => PlainTreesRefineC(l); PlainTreesRefineC(r);
      case Unary(_, c) => PlainTreesRefineC(c);
    }
    EvaluationRefinesC(e);
  }

  /** A result is decidable exactly when every leaf is a constant and no operand is missing. */
  lemma {:induction false} DecidableIffClosed(e: Expr)
    ensures Decidable(Evaluate(e).flags) <==> Closed(e)
  {
    match e {
      case Binary(_, l, r) => DecidableIffClosed(l); DecidableIffClosed(r);
      case Unary(_, c) => DecidableIffClosed(c);
      case _ =>
    }
  }

  /** The leaves that take part, by their flags; a node with an operand missing hides what is below it. */
  function LeafFlags(e: Expr): set<ResultFlag> {
    match e
    case Unset => {}
    case Opaque(isRuntime) => {if isRuntime then Runtime else Undefined}
    case Literal(_, _) => {Constant}
    case Binary(_, l, r) => if l.Unset? || r.Unset? then {} else LeafFlags(l) + LeafFlags(r)
    case Unary(_, c) => if c.Unset? then {} else LeafFlags(c)
  }

  /** A result carries the flags of its leaves, and is undefined as well if it has operands and is no constant. */
  lemma {:induction false} FlagsOfResult(e: Expr)
    ensures Evaluate(e).flags ==
            LeafFlags(e) + if Closed(e) || e.Opaque? then {} else {Undefined}
  {
    match e {
      case Binary(op, l, r) =>
        if !l.Unset? && !r.Unset? {
          FlagsOfResult(l);
          FlagsOfResult(r);
          DecidableIffClosed(l);
          DecidableIffClosed(r);
          hide Evaluate, Decide, Compute, Displace, Operand, Value, UValue;
          OperatorFlags(op, Evaluate(l), Evaluate(r));
        }
      case Unary(_, c) =>
        if !c.Unset? {
          FlagsOfResult(c);
          DecidableIffClosed(c);
        }
      case _ =>
    }
  }

  lemma OperatorFlags(op: BinaryOp, l: ExpressionResult, r: ExpressionResult)
    ensures ApplyBinary(op, l, r).flags ==
            l.flags + r.flags + if Decidable(l.flags) && Decidable(r.flags) then {} else {Undefined}
  {
    hide Decide, Compute, Displace, Operand, Value, UValue, BinaryExprSize;
  }

  /** An operator over something that is no constant yields zero. */
  lemma UndecidedIsZero(e: Expr)
    requires e.Binary? && !Closed(e)
    ensures Evaluate(e).raw == 0
  {
    if !e.left.Unset? && !e.right.Unset? {
      DecidableIffClosed(e.left);
      DecidableIffClosed(e.right);
    }
  }

  // ---- Trees on which the code differs from C ----

  /** `1 < 2` on two ints, which the code reports as an unsigned byte. */
  function Holds(): Expr { Binary(Logical(Less), Literal(INT32, 1), Literal(INT32, 2)) }

  const ONE_BYTE := ExpressionResult({Constant}, UINT8, 1)

  lemma HoldsIsOneByte()
    ensures Evaluate(Holds()) == ONE_BYTE
  {
    hide IntHolds;
    var a, b := ExpressionResult({Constant}, INT32, 1), ExpressionResult({Constant}, INT32, 2);
    assert Operand(a, INT32) == 1 && Operand(b, INT32) == 2;
    assert {Constant} + {Constant} == {Constant};
    assert ApplyBinary(Logical(Less), a, b) == ONE_BYTE;
  }

  lemma HoldsIsOneInt()
    ensures CEvaluate(Holds()) == CValue(INT32, 1) && CDefinedTree(Holds())
  {
    hide IntHolds;
  }

  lemma NegatedByte()
    ensures ValueOf(ApplyUnary(Negate, ONE_BYTE)) == 255
    ensures CUnary(Negate, CValue(INT32, 1)).v == -1
  {
    hide IntHolds;
    assert ToWord(0 - ONE_BYTE.raw) == TWO_64 - 1;
  }

  /** `-(1 < 2)` is 255 instead of -1. */
  lemma NegationDiffers()
    ensures var e := Unary(Negate, Holds());
            Closed(e) && ValueOf(Evaluate(e)) == 255 && CEvaluate(e).v == -1
  {
    hide IntHolds, ApplyUnary, ApplyBinary, CUnary, CBinary, ValueOf;
    HoldsIsOneByte();
    HoldsIsOneInt();
    NegatedByte();
  }

  lemma ShiftedByte()
    ensures ValueOf(ApplyBinary(Shift(ToLeft), ONE_BYTE, ExpressionResult({Constant}, INT32, 8))) == 0
  {
    var eight := ExpressionResult({Constant}, INT32, 8);
    assert Power2(4) == 16;
    assert Power2(8) == 256;
    assert ValueOf(eight) == 8 && ValueOf(ONE_BYTE) == 1;
    assert Displace(ToLeft, 1, 8) == 256 && Convert(256, UINT8) == 0;
    hide Power2, Displace, Convert, ApplyBinary, ValueOf, Low;
    ShiftApplied(ToLeft, ONE_BYTE, eight);
  }

  lemma ShiftedInt()
    ensures CBinary(Shift(ToLeft), CValue(INT32, 1), CValue(INT32, 8)).v == 256
  {
    hide IntHolds;
    assert Power2(4) == 16;
    assert Power2(8) == 256;
  }

  /** `(1 < 2) << 8` is 0 instead of 256. */
  lemma ShiftDiffers()
    ensures var e := Binary(Shift(ToLeft), Holds(), Literal(INT32, 8));
            Closed(e) && CDefinedTree(e) && ValueOf(Evaluate(e)) == 0 && CEvaluate(e).v == 256
  {
    hide IntHolds, ApplyUnary, ApplyBinary, CUnary, CBinary, ValueOf;
    HoldsIsOneByte();
    HoldsIsOneInt();
    ShiftedByte();
    ShiftedInt();
  }

  function MinusOne(): Expr { Literal(INT64, TWO_64 - 1) }

  /** `~-1L > -1L` does not hold instead of holding. */
  lemma InversionDiffers()
    ensures var e := Binary(Logical(Greater), Unary(Invert, MinusOne()), MinusOne());
            Closed(e) && ValueOf(Evaluate(e)) == 0 && CEvaluate(e).v == 1
  {
    hide IntHolds, ApplyUnary, ApplyBinary, CUnary, CBinary, ValueOf;
    InvertedMinusOne();
    InvertedInC();
  }

  lemma InvertedInC()
    ensures CEvaluate(MinusOne()) == CValue(INT64, -1)
    ensures CUnary(Invert, CValue(INT64, -1)) == CValue(INT64, 0)
    ensures CBinary(Logical(Greater), CValue(INT64, 0), CValue(INT64, -1)).v == 1
  {
    hide IntHolds;
  }

  lemma InvertedMinusOne()
    ensures var r := ExpressionResult({Constant}, INT64, TWO_64 - 1);
            ValueOf(ApplyBinary(Logical(Greater), ApplyUnary(Invert, r), r)) == 0
  {
    var r := ExpressionResult({Constant}, INT64, TWO_64 - 1);
    var zero := ExpressionResult({Constant}, UINT64, 0);
    assert ApplyUnary(Invert, r) == zero;
    assert Operand(zero, UINT64) == 0 && Operand(r, UINT64) == TWO_64 - 1;
  }
}
