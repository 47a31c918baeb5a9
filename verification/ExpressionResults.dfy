/**
 * The tagged 64-bit result of an expression, and how it is read at a requested size.
 */
module ExpressionResults {
  import opened MachineIntegers

  datatype ResultFlag = Constant | GlobalVar | LocalVar | Parameter | Runtime | Undefined

  /** `size` says how much of `raw` is the result; bits above it may be stale. */
  datatype ExpressionResult = ExpressionResult(flags: set<ResultFlag>, size: Size, raw: Word)

  /** `None` is the source's `esUndefined`: no particular size is asked for. */
  datatype Target = None | Some(size: Size)

  /** The integer value that `r` denotes in C: its union read at its own size. */
  function ValueOf(r: ExpressionResult): int {
    Convert(r.raw, r.size)
  }

  /** The 64 bits that `value` returns. */
  function Value(r: ExpressionResult, target: Target): Word
    decreases 1
  {
    if target.Some? && (target.size.isUnsigned || r.size.isUnsigned) then
      UValue(r, Some(target.size.(isUnsigned := true)))
    else
      ToWord(Signed(r.raw, r.size.width))
  }

  /** The 64 bits that `uvalue` returns. */
  function UValue(r: ExpressionResult, target: Target): Word
    decreases if target.Some? && !target.size.isUnsigned then 2 else 0
  {
    if target.Some? && !(target.size.isUnsigned && r.size.isUnsigned) then
      if !target.size.isUnsigned then
        Value(r, target)
      else
        match target.size.width
        case W64 => if r.size.width == W64 then r.raw else ToWord(Signed(r.raw, r.size.width))
        case W32 => if r.size.width == W64 || r.size.width == W32 then Low(r.raw, W32)
                    else Low(Signed(r.raw, r.size.width), W32)
        case W16 => if r.size.width == W8 then Low(Signed(r.raw, W8), W16) else Low(r.raw, W16)
        case W8 => Low(r.raw, W8)
    else
      Low(r.raw, r.size.width)
  }

  /** Whether `value` and `uvalue` see the same bits does not depend on which is called. */
  lemma ValueEqualsUValue(r: ExpressionResult, t: Size)
    ensures Value(r, Some(t)) == UValue(r, Some(t))
  {
  }

  /** The 64 bits handed out, in closed form. */
  lemma ValueClosedForm(r: ExpressionResult, t: Size)
    ensures Value(r, Some(t)) ==
            if t.isUnsigned && !r.size.isUnsigned then Low(ValueOf(r), t.width) else ToWord(ValueOf(r))
  {
    LowNarrower(r.raw, r.size.width, t.width);
    assert ToWord(Low(r.raw, r.size.width)) == Low(r.raw, r.size.width) by {
      match r.size.width case W8 => case W16 => case W32 => case W64 =>
    }
  }

  lemma LowNarrower(x: Word, w: Width, t: Width)
    ensures Bits(t) <= Bits(w) ==> Low(Signed(x, w), t) == Low(x, t)
  {
    if Bits(t) <= Bits(w) {
      match t {
        case W8 =>
          LowAcross(x, w, t, match w case W8 => 1 case W16 => 0x100 case W32 => 0x100_0000
                                     case W64 => 0x100_0000_0000_0000);
        case W16 => LowAcross(x, w, t, match w case W32 => 0x1_0000 case W64 => 0x1_0000_0000_0000 case _ => 1);
        case W32 => LowAcross(x, w, t, match w case W64 => 0x1_0000_0000 case _ => 1);
        case W64 => LowAcross(x, w, t, 1);
      }
    }
  }

  /** A target of which the operand's width holds `c` times as many values. */
  lemma LowAcross(x: Word, w: Width, t: Width, c: nat)
    requires Modulus(w) == c * Modulus(t)
    ensures Low(Signed(x, w), t) == Low(x, t)
  {
    hide Modulus, Low, Signed;
    ConvertIdentity(x, Size(w, false));
    var k := SameLowDiffer(Convert(x, Size(w, false)), x, w);
    Regroup(k, c, Modulus(t));
    LowPlusMultiple(x, k * c, t);
  }

  lemma Regroup(k: int, c: int, m: int)
    ensures k * (c * m) == (k * c) * m
  {
  }

  /** For every target, the bits are congruent to the C conversion of the operand. */
  lemma ValueCongruent(r: ExpressionResult, t: Size)
    ensures Low(Value(r, Some(t)), t.width) == Low(Convert(ValueOf(r), t), t.width)
  {
    ValueClosedForm(r, t);
    ConvertIdentity(ValueOf(r), t);
    LowOfWord(ValueOf(r), t.width);
    ConvertIdentity(ValueOf(r), Size(t.width, true));
  }

  /**
   * The bits, read as a signed or unsigned 64-bit integer as the target demands, are
   * exactly the C conversion in two cases and no other: a signed operand is cut down
   * to an unsigned target, or the operand's 64-bit image already fits the target.
   */
  lemma ValueExact(r: ExpressionResult, t: Size)
    ensures Convert(Value(r, Some(t)), Size(W64, t.isUnsigned)) == Convert(ValueOf(r), t)
       <==> (t.isUnsigned && !r.size.isUnsigned) || InRange(Convert(ValueOf(r), Size(W64, t.isUnsigned)), t)
  {
    var v := ValueOf(r);
    var wide := Size(W64, t.isUnsigned);
    ValueClosedForm(r, t);
    hide Value, UValue, ValueOf, Low, Signed;
    if t.isUnsigned && !r.size.isUnsigned {
      LowIsIdentity(v, t.width);
      LowIsIdentity(Low(v, t.width), W64);
    } else {
      LowOfWord(v, W64);
      LowDeterminesValue(ToWord(v), v, wide);
      ConvertAgain(v, t);
      ConvertIdentity(Convert(v, wide), t);
    }
  }

  lemma ConvertAgain(v: int, t: Size)
    ensures Convert(Convert(v, Size(W64, t.isUnsigned)), t) == Convert(v, t)
  {
    var wide := Size(W64, t.isUnsigned);
    ConvertIdentity(v, wide);
    LowOfWord(v, t.width);
    LowNarrower(ToWord(v), W64, t.width);
    assert Convert(v, wide) == if t.isUnsigned then ToWord(v) else Signed(ToWord(v), W64);
    LowDeterminesValue(Convert(v, wide), v, t);
  }

  /** A target at least as wide never loses anything unless signs force a wrap at its own width. */
  lemma ValueExactWhenWide(r: ExpressionResult, t: Size)
    requires Bits(t.width) > Bits(r.size.width) || t == r.size || (t.isUnsigned && t.width == r.size.width)
    ensures Convert(Value(r, Some(t)), Size(W64, t.isUnsigned)) == Convert(ValueOf(r), t)
  {
    ValueExact(r, t);
    ConvertIdentity(r.raw, r.size);
    if !(t.isUnsigned && !r.size.isUnsigned) {
      RangeGrows(ValueOf(r), r.size, t);
    }
  }

  lemma RangeGrows(v: int, s: Size, t: Size)
    requires InRange(v, s) && (s == t || (Bits(s.width) < Bits(t.width) && (s.isUnsigned || !t.isUnsigned)))
    ensures InRange(v, t) && Convert(v, Size(W64, t.isUnsigned)) == v
  {
    ConvertIdentity(v, Size(W64, t.isUnsigned));
  }

  /** The int 300, asked for as a signed byte, is handed out as 300 instead of 44. */
  lemma NarrowingKeepsTooMuch()
    ensures var r := ExpressionResult({Constant}, INT32, 300);
            Convert(Value(r, Some(INT8)), INT64) == 300 && Convert(ValueOf(r), INT8) == 44
  {
  }
}
