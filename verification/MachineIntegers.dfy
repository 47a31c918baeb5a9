/**
 * Integers as the expression evaluator sees them: a 64-bit union that is read and
 * written at 8, 16, 32 or 64 bits, signed or unsigned, next to the C view of the
 * same values as mathematical integers.
 */
module MachineIntegers {

  const TWO_64: int := 0x1_0000_0000_0000_0000

  datatype Width = W8 | W16 | W32 | W64

  datatype Size = Size(width: Width, isUnsigned: bool)

  const INT8 := Size(W8, false)
  const UINT8 := Size(W8, true)
  const INT32 := Size(W32, false)
  const UINT32 := Size(W32, true)
  const INT64 := Size(W64, false)
  const UINT64 := Size(W64, true)

  /** The raw contents of the 64-bit union. */
  type Word = x: int | 0 <= x < TWO_64

  function Bits(w: Width): nat {
    match w case W8 => 8 case W16 => 16 case W32 => 32 case W64 => 64
  }

  function Modulus(w: Width): nat {
    match w case W8 => 0x100 case W16 => 0x1_0000 case W32 => 0x1_0000_0000 case W64 => TWO_64
  }

  function Low(x: int, w: Width): nat { x % Modulus(w) }

  function Signed(x: int, w: Width): int {
    if Low(x, w) < Modulus(w) / 2 then Low(x, w) else Low(x, w) - Modulus(w)
  }

  function ToWord(x: int): Word { x % TWO_64 }

  /** Conversion of an integer value to an integer type, section 6.3.1.3 of ISO C99. */
  function Convert(v: int, t: Size): int {
    if t.isUnsigned then Low(v, t.width) else Signed(v, t.width)
  }

  predicate InRange(v: int, t: Size) {
    if t.isUnsigned then 0 <= v < Modulus(t.width)
    else -(Modulus(t.width) / 2) <= v < Modulus(t.width) / 2
  }

  lemma ConvertIdentity(v: int, t: Size)
    ensures InRange(Convert(v, t), t)
    ensures Convert(v, t) == v <==> InRange(v, t)
    ensures Low(Convert(v, t), t.width) == Low(v, t.width)
  {
    var m := Modulus(t.width);
    ModulusIsEven(t.width);
    LowIsIdentity(v, t.width);
    LowIsIdentity(v + m, t.width);
    LowIsIdentity(Low(v, t.width), t.width);
    LowPlusMultiple(v, 1, t.width);
    LowPlusMultiple(Low(v, t.width), -1, t.width);
    hide Modulus;
  }

  lemma ModulusIsEven(w: Width)
    ensures Modulus(w) > 1 && Modulus(w) == 2 * (Modulus(w) / 2)
  {
  }

  lemma LowIsIdentity(x: int, w: Width)
    ensures 0 <= Low(x, w) < Modulus(w)
    ensures 0 <= x < Modulus(w) <==> Low(x, w) == x
  {
    if 0 <= x < Modulus(w) { ModUnique(x, Modulus(w), 0, x); }
  }

  lemma LowDeterminesValue(x: int, y: int, t: Size)
    ensures Low(x, t.width) == Low(y, t.width) <==> Convert(x, t) == Convert(y, t)
  {
    match t.width case W8 => case W16 => case W32 => case W64 =>
  }

  lemma MultipleAtLeast(d: int, m: int)
    requires m > 0
    ensures d >= 1 ==> d * m >= m
    ensures d <= -1 ==> d * m <= -m
    decreases if d < 0 then -d else d
  {
    if d > 1 { MultipleAtLeast(d - 1, m); }
    if d < -1 { MultipleAtLeast(d + 1, m); }
  }

  lemma SmallMultipleIsZero(d: int, m: int)
    requires -m < d * m < m
    ensures d == 0
  {
    MultipleAtLeast(d, m);
  }

  lemma ModUnique(x: int, m: nat, q: int, r: int)
    requires 0 <= r < m && x == q * m + r
    ensures x % m == r && x / m == q
  {
    var q', r' := x / m, x % m;
    assert x == q' * m + r';
    assert (q' - q) * m == q' * m - q * m == r - r';
    SmallMultipleIsZero(q' - q, m);
  }

  lemma ModPlusMultiple(x: int, k: int, m: nat)
    requires m > 0
    ensures (x + k * m) % m == x % m
  {
    var q, r := x / m, x % m;
    assert x + k * m == (q + k) * m + r;
    ModUnique(x + k * m, m, q + k, r);
  }

  lemma LowPlusMultiple(x: int, k: int, w: Width)
    ensures Low(x + k * Modulus(w), w) == Low(x, w)
  {
    ModPlusMultiple(x, k, Modulus(w));
  }

  lemma LowOfWord(x: int, w: Width)
    ensures Low(ToWord(x), w) == Low(x, w)
  {
    var k := x / TWO_64;
    var c := match w
      case W8 => 0x100_0000_0000_0000
      case W16 => 0x1_0000_0000_0000
      case W32 => 0x1_0000_0000
      case W64 => 1;
    assert TWO_64 == c * Modulus(w);
    assert ToWord(x) + (k * c) * Modulus(w) == x by {
      assert x == k * TWO_64 + ToWord(x);
      assert k * (c * Modulus(w)) == (k * c) * Modulus(w);
    }
    LowPlusMultiple(ToWord(x), k * c, w);
  }

  lemma SameLowDiffer(x: int, x': int, w: Width) returns (k: int)
    requires Low(x, w) == Low(x', w)
    ensures x == x' + k * Modulus(w)
  {
    var m := Modulus(w);
    assert x == (x / m) * m + Low(x, w) && x' == (x' / m) * m + Low(x', w);
    k := x / m - x' / m;
    assert k * m == (x / m) * m - (x' / m) * m;
  }

  lemma LowOfSum(x: int, y: int, x': int, y': int, w: Width)
    requires Low(x, w) == Low(x', w) && Low(y, w) == Low(y', w)
    ensures Low(x + y, w) == Low(x' + y', w) && Low(x - y, w) == Low(x' - y', w)
  {
    var m := Modulus(w);
    var k := SameLowDiffer(x, x', w);
    var j := SameLowDiffer(y, y', w);
    assert x + y == x' + y' + (k + j) * m;
    assert x - y == x' - y' + (k - j) * m;
    LowPlusMultiple(x' + y', k + j, w);
    LowPlusMultiple(x' - y', k - j, w);
  }

  // ---- Bitwise operators, bit by bit ----

  datatype BitOp = BitAnd | BitOr | BitXor

  function OneBit(op: BitOp, a: nat, b: nat): nat
    requires a < 2 && b < 2
  {
    match op
    case BitAnd => a * b
    case BitOr => if a + b == 0 then 0 else 1
    case BitXor => (a + b) % 2
  }

  function Power2(n: nat): nat
    ensures Power2(n) > 0
  {
    if n == 0 then 1 else 2 * Power2(n - 1)
  }

  /** The lowest `n` bits of `a op b`. */
  function Bitwise(op: BitOp, a: nat, b: nat, n: nat): (r: nat)
    ensures r < Power2(n)
  {
    if n == 0 then 0
    else OneBit(op, a % 2, b % 2) + 2 * Bitwise(op, a / 2, b / 2, n - 1)
  }

  function BitAt(a: nat, i: nat): (r: nat)
    ensures r < 2
  {
    if i == 0 then a % 2 else BitAt(a / 2, i - 1)
  }

  /** What a bitwise operator means: it acts on every bit position on its own. */
  lemma {:induction false} BitwiseActsPerBit(op: BitOp, a: nat, b: nat, n: nat, i: nat)
    requires i < n
    ensures BitAt(Bitwise(op, a, b, n), i) == 1 <==>
              match op
              case BitAnd => BitAt(a, i) == 1 && BitAt(b, i) == 1
              case BitOr => BitAt(a, i) == 1 || BitAt(b, i) == 1
              case BitXor => BitAt(a, i) != BitAt(b, i)
  {
    var rest := Bitwise(op, a / 2, b / 2, n - 1);
    assert Bitwise(op, a, b, n) / 2 == rest;
    if i > 0 {
      BitwiseActsPerBit(op, a / 2, b / 2, n - 1, i - 1);
    }
  }

  lemma HalfOfMod(a: nat, p: nat)
    requires p > 0
    ensures (a % (2 * p)) / 2 == (a / 2) % p && (a % (2 * p)) % 2 == a % 2
  {
    var q, r := (a / 2) / p, (a / 2) % p;
    assert a == 2 * (q * p + r) + a % 2;
    assert a == q * (2 * p) + (2 * r + a % 2) by { assert q * (2 * p) == 2 * (q * p); }
    ModUnique(a, 2 * p, q, 2 * r + a % 2);
  }

  lemma ModIsPair(bit: nat, rest: nat, p: nat)
    requires bit < 2 && p > 0
    ensures (bit + 2 * rest) % (2 * p) == bit + 2 * (rest % p)
  {
    HalfOfMod(bit + 2 * rest, p);
    assert (bit + 2 * rest) / 2 == rest && (bit + 2 * rest) % 2 == bit;
  }

  lemma BitwisePair(op: BitOp, a: nat, b: nat, p: nat, k: nat)
    requires p > 0 && k > 0
    ensures Bitwise(op, a % (2 * p), b % (2 * p), k)
         == OneBit(op, a % 2, b % 2) + 2 * Bitwise(op, (a / 2) % p, (b / 2) % p, k - 1)
  {
    HalfOfMod(a, p);
    HalfOfMod(b, p);
  }

  lemma BitwiseUnfolds(op: BitOp, a: nat, b: nat, n: nat)
    requires n > 0
    ensures Bitwise(op, a, b, n) == OneBit(op, a % 2, b % 2) + 2 * Bitwise(op, a / 2, b / 2, n - 1)
    ensures Power2(n) == 2 * Power2(n - 1)
    ensures OneBit(op, a % 2, b % 2) < 2
  {
  }

  /** The low `k` bits of a result depend only on the low `k` bits of the operands. */
  lemma {:induction false} BitwiseLow(op: BitOp, a: nat, b: nat, n: nat, k: nat)
    requires k <= n
    ensures Bitwise(op, a, b, n) % Power2(k) == Bitwise(op, a % Power2(k), b % Power2(k), k)
  {
    if k > 0 {
      var p := Power2(k - 1);
      BitwiseUnfolds(op, a, b, n);
      BitwiseUnfolds(op, a, b, k);
      BitwisePair(op, a, b, p, k);
      BitwiseLow(op, a / 2, b / 2, n - 1, k - 1);
      hide Bitwise, Power2, OneBit;
      ModIsPair(OneBit(op, a % 2, b % 2), Bitwise(op, a / 2, b / 2, n - 1), p);
    }
  }

  lemma {:induction false} PowerAdd(m: nat, n: nat)
    ensures Power2(m + n) == Power2(m) * Power2(n)
  {
    if m > 0 {
      PowerAdd(m - 1, n);
      DoubledProduct(Power2(m - 1), Power2(n));
    }
  }

  lemma DoubledProduct(a: nat, b: nat)
    ensures 2 * (a * b) == (2 * a) * b
  {
  }

  lemma ModulusIsPower(w: Width)
    ensures Modulus(w) == Power2(Bits(w))
  {
    assert Power2(2) == 4;
    assert Power2(4) == 16 by { PowerAdd(2, 2); }
    assert Power2(8) == 0x100 by { PowerAdd(4, 4); }
    assert Power2(16) == 0x1_0000 by { PowerAdd(8, 8); }
    assert Power2(32) == 0x1_0000_0000 by { PowerAdd(16, 16); }
    assert Power2(64) == TWO_64 by { PowerAdd(32, 32); }
  }

  lemma LowOfBitwise(op: BitOp, a: Word, b: Word, w: Width)
    ensures Low(Bitwise(op, a, b, 64), w) == Bitwise(op, Low(a, w), Low(b, w), Bits(w))
    ensures Bitwise(op, a, b, 64) < TWO_64
  {
    ModulusIsPower(w);
    ModulusIsPower(W64);
    BitwiseLow(op, a, b, 64, Bits(w));
  }
}
