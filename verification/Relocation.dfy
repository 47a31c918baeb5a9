/** Relocation of a kernel module's sections inside its file, after the loader of the kernel. */
module Relocation {
  import opened MachineIntegers
  import opened Bytes

  datatype Section = Common | Absolute | Undefined | At(index: nat)

  datatype Symbol = Symbol(name: nat, bind: nat, section: Section, value: Word)

  datatype SystemMapEntry = SystemMapEntry(address: Word, kind: nat)

  /** Where an undefined symbol is found; the first place that knows it counts. */
  datatype Lookup =
    | InSymbolTable(value: Word)
    | InSystemMap(entries: seq<SystemMapEntry>)
    | AsVariable(value: Word)
    | AsFunction(value: Word)
    | Nowhere

  datatype Kind = NoRelocation | Abs64 | Pc32 | Abs32 | Abs32S | OtherKind

  datatype Rela = Rela(offset: nat, symbol: nat, kind: Kind, addend: int)

  /** What is common to all relocation sections of a module. */
  datatype Env = Env(lookup: nat -> Lookup, percpuSection: nat, percpuBase: Word, inMem: nat -> Word,
      inElf: nat -> Word)

  /** One relocation section: the section it applies to, in the file and in memory. */
  datatype Pass = Pass(file: Word, sectionOffset: nat, sectionMem: Word, isAltInstructions: bool, relas: seq<Rela>)

  /** `relMem` and `relElf` keep the place of the section of the last section-relative symbol. */
  datatype State = State(image: seq<byte>, symbols: seq<Symbol>, relMem: Word, relElf: Word)

  datatype Outcome = Done(state: State) | NoExec(state: State)

  // ---- Symbols ----

  predicate Global(bind: nat, kind: nat) { bind == 1 && 0x41 <= kind <= 0x5a }

  predicate Local(bind: nat, kind: nat) { bind == 0 && 0x61 <= kind <= 0x7a }

  /** The last entry of fitting visibility; the old value if there is none. */
  function FromSystemMap(entries: seq<SystemMapEntry>, bind: nat, value: Word): Word {
    if entries == [] then value
    else
      var last := entries[|entries| - 1];
      if Global(bind, last.kind) || Local(bind, last.kind) then last.address
      else FromSystemMap(entries[..|entries| - 1], bind, value)
  }

  function Base(env: Env, index: nat): Word {
    if index == env.percpuSection then env.percpuBase else env.inMem(index)
  }

  function AddBase(value: Word, base: Word): Word {
    if value < base then ToWord(value + base) else value
  }

  /** The symbol as one relocation leaves it. */
  function Resolved(env: Env, s: Symbol): Symbol {
    match s.section
    case Common => s
    case Absolute => s
    case At(index) => s.(value := AddBase(s.value, Base(env, index)))
    case Undefined =>
      match env.lookup(s.name)
      case InSymbolTable(v) => s.(value := v)
      case InSystemMap(entries) => s.(value := FromSystemMap(entries, s.bind, s.value))
      case AsVariable(v) => s.(value := v)
      case AsFunction(v) => s.(value := v)
      case Nowhere => s
  }

  /** Relocations against such symbols are passed over. */
  predicate Skipped(env: Env, s: Symbol) {
    s.section.Common? || s.section.Absolute?
    || (s.section.Undefined? && (env.lookup(s.name).AsFunction? || env.lookup(s.name).Nowhere?))
  }

  // ---- Fields ----

  function Width(kind: Kind): nat {
    match kind
    case Abs64 => 8
    case Pc32 => 4
    case Abs32 => 4
    case Abs32S => 4
    case NoRelocation => 0
    case OtherKind => 0
  }

  predicate Inside(p: Pass, r: Rela, size: nat) { p.sectionOffset + r.offset + Width(r.kind) <= size }

  /** What is to be stored, before it is cut to the field's width. */
  function Value(p: Pass, r: Rela, symbol: Word, relMem: Word, relElf: Word): Word {
    var val := ToWord(symbol + r.addend);
    if r.kind != Pc32 then val
    else if p.isAltInstructions then
      ToWord(val - relMem + relElf - (p.file + p.sectionOffset + r.offset))
    else ToWord(val - (p.sectionMem + r.offset))
  }

  predicate Fits(kind: Kind, val: Word) {
    match kind
    case Abs32 => val == Low(val, W32)
    case Abs32S => Signed(val, W64) == Signed(val, W32)
    case OtherKind => false
    case NoRelocation => true
    case Abs64 => true
    case Pc32 => true
  }

  function Field(kind: Kind, val: Word): (f: seq<byte>)
    ensures |f| == Width(kind)
  {
    if Width(kind) == 8 then Little(val, 8) else if Width(kind) == 4 then Little(Low(val, W32), 4) else []
  }

  // ---- One relocation, and all of a section ----

  predicate Sound(p: Pass, r: Rela, s: State) { r.symbol < |s.symbols| && Inside(p, r, |s.image|) }

  predicate AllSound(p: Pass, relas: seq<Rela>, s: State) {
    forall k :: 0 <= k < |relas| ==> Sound(p, relas[k], s)
  }

  /** The place of the symbol's section, for a symbol that has one. */
  function Located(env: Env, s: Symbol, state: State): State {
    match s.section
    case At(index) =>
      if index == env.percpuSection then state.(relMem := env.percpuBase)
      else state.(relMem := env.inMem(index), relElf := env.inElf(index))
    case Common => state
    case Absolute => state
    case Undefined => state
  }

  function Step(env: Env, p: Pass, r: Rela, s: State): (o: Outcome)
    requires Sound(p, r, s)
    ensures |o.state.image| == |s.image| && |o.state.symbols| == |s.symbols|
  {
    var symbol := Resolved(env, s.symbols[r.symbol]);
    var located := Located(env, symbol, s).(symbols := s.symbols[r.symbol := symbol]);
    if Skipped(env, symbol) then Done(located)
    else
      var val := Value(p, r, symbol.value, located.relMem, located.relElf);
      var stored := located.(image := Store(s.image, p.sectionOffset + r.offset, Field(r.kind, val)));
      if Fits(r.kind, val) then Done(stored) else NoExec(stored)
  }

  function Run(env: Env, p: Pass, relas: seq<Rela>, s: State): (o: Outcome)
    requires AllSound(p, relas, s)
    ensures |o.state.image| == |s.image| && |o.state.symbols| == |s.symbols|
  {
    if relas == [] then Done(s)
    else
      var front := relas[..|relas| - 1];
      SoundFront(p, relas, s);
      var before := Run(env, p, front, s);
      if before.NoExec? then before else Step(env, p, relas[|relas| - 1], before.state)
  }

  lemma SoundFront(p: Pass, relas: seq<Rela>, s: State)
    requires AllSound(p, relas, s) && relas != []
    ensures AllSound(p, relas[..|relas| - 1], s) && Sound(p, relas[|relas| - 1], s)
  {
    assert forall k :: 0 <= k < |relas| - 1 ==> relas[..|relas| - 1][k] == relas[k];
  }

  // ---- The base of a section is added once ----

  function AddedTimes(value: Word, base: Word, n: nat): Word {
    if n == 0 then value else AddBase(AddedTimes(value, base, n - 1), base)
  }

  /** The sum fits into 64 bits, and the original value is an offset below the base. */
  predicate ProperOffset(value: Word, base: Word) { base == 0 || (value < base && value + base < TWO_64) }

  lemma {:induction false} AddedUnlessProper(value: Word, base: Word, n: nat)
    requires n > 0
    ensures ProperOffset(value, base) ==> AddedTimes(value, base, n) == value + base
    ensures base != 0 && value >= base ==> AddedTimes(value, base, n) == value
  {
    if n > 1 {
      AddedUnlessProper(value, base, n - 1);
    } else {
      assert AddedTimes(value, base, 0) == value;
    }
  }

  /** However often a symbol is relocated, its value is offset plus base exactly for a proper offset. */
  lemma {:induction false} BaseAddedOnce(value: Word, base: Word, n: nat)
    requires n > 0
    ensures AddedTimes(value, base, n) == value + base <==> ProperOffset(value, base)
  {
    AddedUnlessProper(value, base, n);
  }

  /** Adding the base does not overflow. */
  predicate Settling(env: Env, s: Symbol) {
    s.section.At? && s.value < Base(env, s.section.index) ==> s.value + Base(env, s.section.index) < TWO_64
  }

  /** Relocating against a symbol again does not change it, exactly if adding its base did not overflow. */
  lemma ResolvedTwice(env: Env, s: Symbol)
    ensures Resolved(env, Resolved(env, s)) == Resolved(env, s) <==> Settling(env, s)
    ensures Resolved(env, s).section == s.section && Resolved(env, s).name == s.name && Resolved(env, s).bind == s.bind
    ensures Skipped(env, Resolved(env, s)) <==> Skipped(env, s)
  {
    if s.section.Undefined? && env.lookup(s.name).InSystemMap? {
      MapTwice(env.lookup(s.name).entries, s.bind, s.value);
    }
  }

  /** A section near the end of the address space: its base is added on every pass. */
  lemma OverflowAddsAgain()
    ensures exists value: Word, base: Word :: AddBase(value, base) < value
              && AddBase(AddBase(value, base), base) < AddBase(value, base)
  {
    var value: Word, base: Word := TWO_64 - 2, TWO_64 - 1;
    assert AddBase(value, base) == TWO_64 - 3;
    assert AddBase(AddBase(value, base), base) == TWO_64 - 4;
  }

  lemma {:induction false} MapTwice(entries: seq<SystemMapEntry>, bind: nat, value: Word)
    ensures FromSystemMap(entries, bind, FromSystemMap(entries, bind, value)) == FromSystemMap(entries, bind, value)
  {
    if entries != [] {
      MapTwice(entries[..|entries| - 1], bind, value);
    }
  }

  predicate AllSettling(env: Env, symbols: seq<Symbol>) {
    forall i :: 0 <= i < |symbols| ==> Settling(env, symbols[i])
  }

  predicate Mentioned(relas: seq<Rela>, i: nat) {
    exists k :: 0 <= k < |relas| && relas[k].symbol == i
  }

  /** Every symbol is as it was, or as one relocation against it leaves it. */
  predicate OnceOrNever(env: Env, before: seq<Symbol>, after: seq<Symbol>) {
    |before| == |after|
    && forall i :: 0 <= i < |before| ==> after[i] == before[i] || after[i] == Resolved(env, before[i])
  }

  lemma StepSymbols(env: Env, p: Pass, r: Rela, s: State, symbols: seq<Symbol>)
    requires Sound(p, r, s) && AllSettling(env, symbols) && OnceOrNever(env, symbols, s.symbols)
    ensures OnceOrNever(env, symbols, Step(env, p, r, s).state.symbols)
    ensures Step(env, p, r, s).state.symbols == s.symbols[r.symbol := Resolved(env, symbols[r.symbol])]
  {
    hide Resolved, Settling, Value, Store;
    ResolvedTwice(env, symbols[r.symbol]);
    assert Settling(env, symbols[r.symbol]);
  }

  lemma {:induction false} RunSymbols(env: Env, p: Pass, relas: seq<Rela>, s: State, symbols: seq<Symbol>)
    requires AllSound(p, relas, s) && AllSettling(env, symbols) && OnceOrNever(env, symbols, s.symbols)
    ensures OnceOrNever(env, symbols, Run(env, p, relas, s).state.symbols)
    ensures Run(env, p, relas, s).Done? ==> forall i: nat :: i < |symbols| && Mentioned(relas, i) ==>
              Run(env, p, relas, s).state.symbols[i] == Resolved(env, symbols[i])
  {
    if relas != [] {
      var front, last := relas[..|relas| - 1], relas[|relas| - 1];
      SoundFront(p, relas, s);
      RunSymbols(env, p, front, s, symbols);
      var before := Run(env, p, front, s);
      if before.Done? {
        StepSymbols(env, p, last, before.state, symbols);
        forall i: nat | i < |symbols| && Mentioned(relas, i)
          ensures Step(env, p, last, before.state).state.symbols[i] == Resolved(env, symbols[i])
        {
          if i != last.symbol {
            var k :| 0 <= k < |relas| && relas[k].symbol == i;
            assert front[k].symbol == i;
          }
        }
      }
    }
  }

  // ---- What the fields hold ----

  /** Two fields of a section do not overlap. */
  predicate Apart(a: Rela, b: Rela) {
    Width(a.kind) == 0 || Width(b.kind) == 0
    || a.offset + Width(a.kind) <= b.offset || b.offset + Width(b.kind) <= a.offset
  }

  predicate AllApart(relas: seq<Rela>) {
    forall j, k :: 0 <= j < k < |relas| ==> Apart(relas[j], relas[k])
  }

  function FieldOf(p: Pass, r: Rela, image: seq<byte>): seq<byte>
    requires Inside(p, r, |image|)
  {
    image[p.sectionOffset + r.offset..p.sectionOffset + r.offset + Width(r.kind)]
  }

  /** In the section of alternative instructions, a relative field needs a symbol with a section of its own. */
  predicate Determined(env: Env, p: Pass, r: Rela, s: Symbol) {
    r.kind == Pc32 && p.isAltInstructions ==> s.section.At? && s.section.index != env.percpuSection
  }

  /** The value for a field, given the symbol it refers to. */
  function Wanted(env: Env, p: Pass, r: Rela, s: Symbol): Word {
    match s.section
    case At(index) => Value(p, r, s.value, Base(env, index), env.inElf(index))
    case Common => Value(p, r, s.value, 0, 0)
    case Absolute => Value(p, r, s.value, 0, 0)
    case Undefined => Value(p, r, s.value, 0, 0)
  }

  lemma StepField(env: Env, p: Pass, r: Rela, s: State)
    requires Sound(p, r, s)
    requires !Skipped(env, s.symbols[r.symbol]) && Determined(env, p, r, s.symbols[r.symbol])
    ensures var symbol := Resolved(env, s.symbols[r.symbol]);
            FieldOf(p, r, Step(env, p, r, s).state.image) == Field(r.kind, Wanted(env, p, r, symbol))
            && (Step(env, p, r, s).Done? <==> Fits(r.kind, Wanted(env, p, r, symbol)))
  {
    var symbol := Resolved(env, s.symbols[r.symbol]);
    ResolvedTwice(env, s.symbols[r.symbol]);
    hide Store, Field, Resolved, Settling, Fits, Low, Signed;
    StoredThere(s.image, p.sectionOffset + r.offset, Field(r.kind, Wanted(env, p, r, symbol)));
  }

  lemma StepElsewhere(env: Env, p: Pass, r: Rela, s: State, other: Rela)
    requires Sound(p, r, s) && Inside(p, other, |s.image|) && Apart(r, other)
    ensures FieldOf(p, other, Step(env, p, r, s).state.image) == FieldOf(p, other, s.image)
  {
    hide Store, Field, Value, Fits, Resolved;
    forall f: seq<byte> | |f| == Width(r.kind)
      ensures FieldOf(p, other, Store(s.image, p.sectionOffset + r.offset, f)) == FieldOf(p, other, s.image)
    {
      if |f| == 0 {
        StoredNothing(s.image, p.sectionOffset + r.offset, f);
      } else if Width(other.kind) > 0 {
        StoredElsewhere(s.image, p.sectionOffset + r.offset, f, p.sectionOffset + other.offset,
                        p.sectionOffset + other.offset + Width(other.kind));
      }
    }
  }

  lemma StoredNothing(image: seq<byte>, at: nat, code: seq<byte>)
    requires at <= |image| && code == []
    ensures Store(image, at, code) == image
  {
  }

  /** A relocation that is carried out has the value of its symbol, once resolved, in its field. */
  predicate Holds(env: Env, p: Pass, r: Rela, symbols: seq<Symbol>, image: seq<byte>)
    requires r.symbol < |symbols| && Inside(p, r, |image|)
  {
    var s := symbols[r.symbol];
    !Skipped(env, s) && Determined(env, p, r, s) ==>
      FieldOf(p, r, image) == Field(r.kind, Wanted(env, p, r, Resolved(env, s)))
  }

  /** A relocation does not make the loader give up. */
  predicate Acceptable(env: Env, p: Pass, r: Rela, symbols: seq<Symbol>)
    requires r.symbol < |symbols|
  {
    var s := symbols[r.symbol];
    Skipped(env, s) || Fits(r.kind, Wanted(env, p, r, Resolved(env, s)))
  }

  lemma FitsAnyway(env: Env, p: Pass, r: Rela, s: State)
    requires Sound(p, r, s) && !Determined(env, p, r, s.symbols[r.symbol])
    ensures Step(env, p, r, s).Done?
  {
    hide Store, Field, Resolved;
  }

  lemma StepAccepts(env: Env, p: Pass, r: Rela, s: State, symbols: seq<Symbol>)
    requires Sound(p, r, s) && AllSettling(env, symbols) && OnceOrNever(env, symbols, s.symbols)
    ensures Step(env, p, r, s).Done? <==> Acceptable(env, p, r, symbols)
    ensures Holds(env, p, r, symbols, Step(env, p, r, s).state.image)
  {
    var now := s.symbols[r.symbol];
    assert Settling(env, symbols[r.symbol]);
    ResolvedTwice(env, symbols[r.symbol]);
    assert Resolved(env, now) == Resolved(env, symbols[r.symbol]);
    hide Resolved, Settling, Wanted, FieldOf, AllSettling, OnceOrNever, Inside;
    if !Skipped(env, now) {
      if Determined(env, p, r, now) {
        StepField(env, p, r, s);
      } else {
        FitsAnyway(env, p, r, s);
      }
    }
  }

  lemma HoldsStays(env: Env, p: Pass, r: Rela, s: State, other: Rela, symbols: seq<Symbol>)
    requires Sound(p, r, s) && Sound(p, other, s) && |symbols| == |s.symbols| && Apart(other, r)
    requires Holds(env, p, other, symbols, s.image)
    ensures Holds(env, p, other, symbols, Step(env, p, r, s).state.image)
  {
    hide Skipped, Determined, Resolved, Wanted, FieldOf, Step;
    StepElsewhere(env, p, r, s, other);
  }

  /** The loader gives up exactly for the first relocation it cannot do, and each done so far holds. */
  lemma {:induction false} RunHolds(env: Env, p: Pass, relas: seq<Rela>, s: State)
    requires AllSound(p, relas, s) && AllSettling(env, s.symbols) && AllApart(relas)
    ensures Run(env, p, relas, s).Done? <==> forall k :: 0 <= k < |relas| ==> Acceptable(env, p, relas[k], s.symbols)
    ensures Run(env, p, relas, s).Done? ==>
              forall k :: 0 <= k < |relas| ==> Holds(env, p, relas[k], s.symbols, Run(env, p, relas, s).state.image)
  {
    hide Step, Acceptable, Holds, AllSettling, Apart, Resolved;
    if relas != [] {
      var front, last := relas[..|relas| - 1], relas[|relas| - 1];
      SoundFront(p, relas, s);
      RunHolds(env, p, front, s);
      RunSymbols(env, p, front, s, s.symbols);
      var before := Run(env, p, front, s);
      assert forall k :: 0 <= k < |front| ==> front[k] == relas[k];
      if before.Done? {
        StepAccepts(env, p, last, before.state, s.symbols);
        forall k | 0 <= k < |front|
          ensures Holds(env, p, relas[k], s.symbols, Step(env, p, last, before.state).state.image)
        {
          assert Apart(relas[k], last) && Sound(p, relas[k], s)
              && Holds(env, p, front[k], s.symbols, before.state.image);
          HoldsStays(env, p, last, before.state, relas[k], s.symbols);
        }
      }
    }
  }

  // ---- Reading the fields back ----

  /** What the processor reads: 32-bit fields are extended by zeros or by their sign. */
  function Decoded(kind: Kind, field: seq<byte>): Word {
    match kind
    case Abs64 => ToWord(FromLittle(field))
    case Abs32 => ToWord(FromLittle(field))
    case Abs32S => ToWord(Signed(FromLittle(field), W32))
    case Pc32 => ToWord(Signed(FromLittle(field), W32))
    case NoRelocation => 0
    case OtherKind => 0
  }

  lemma SignExtends(val: Word)
    ensures ToWord(Signed(Low(val, W32), W32)) == val <==> Signed(val, W64) == Signed(val, W32)
  {
  }

  /** A stored value can be read back exactly if it fits. */
  lemma FieldDecodes(kind: Kind, val: Word)
    requires kind.Abs64? || kind.Abs32? || kind.Abs32S?
    ensures Decoded(kind, Field(kind, val)) == val <==> Fits(kind, val)
  {
    hide Little, FromLittle, Power256;
    LittleWords();
    match kind
    case Abs64 => LittleRoundTrip(val, 8);
    case Abs32 => LittleRoundTrip(Low(val, W32), 4);
    case Abs32S =>
      LittleRoundTrip(Low(val, W32), 4);
      SignExtends(val);
  }

  /** A relative field is the distance from the field to symbol plus addend, modulo the field's width. */
  lemma RelativeDecodes(val: Word)
    ensures Low(Decoded(Pc32, Field(Pc32, val)), W32) == Low(val, W32)
  {
    hide Little, FromLittle, Power256;
    LittleWords();
    LittleRoundTrip(Low(val, W32), 4);
    var x := Low(val, W32);
    assert Low(ToWord(Signed(x, W32)), W32) == Low(Signed(x, W32), W32) by { LowOfWord(Signed(x, W32), W32); }
    ConvertIdentity(x, INT32);
  }

  predicate SymbolPlusAddend(p: Pass, r: Rela, o: State)
    requires Sound(p, r, o)
  {
    Decoded(r.kind, FieldOf(p, r, o.image)) == ToWord(o.symbols[r.symbol].value + r.addend)
  }

  predicate Distance(p: Pass, r: Rela, o: State)
    requires Sound(p, r, o)
  {
    Low(Decoded(Pc32, FieldOf(p, r, o.image)), W32) ==
    Low(ToWord(ToWord(o.symbols[r.symbol].value + r.addend) - (p.sectionMem + r.offset)), W32)
  }

  /**
   * After a return value of zero, every field that was relocated reads as the final value of its
   * symbol plus the addend; a relative field in ordinary code reads as the distance to it.
   */
  lemma RelocatedFields(env: Env, p: Pass, s: State, k: nat)
    requires AllSound(p, p.relas, s) && AllSettling(env, s.symbols) && AllApart(p.relas)
    requires Run(env, p, p.relas, s).Done? && k < |p.relas| && !Skipped(env, s.symbols[p.relas[k].symbol])
    ensures var r, o := p.relas[k], Run(env, p, p.relas, s).state;
            Sound(p, r, o)
            && (r.kind.Abs64? || r.kind.Abs32? || r.kind.Abs32S? ==> SymbolPlusAddend(p, r, o))
            && (r.kind.Pc32? && !p.isAltInstructions ==> Distance(p, r, o))
  {
    hide Run, Step, AllSettling, AllApart, Resolved, Decoded, Field, Fits, Low;
    var r, o := p.relas[k], Run(env, p, p.relas, s).state;
    RunHolds(env, p, p.relas, s);
    RunSymbols(env, p, p.relas, s, s.symbols);
    assert Mentioned(p.relas, r.symbol);
    assert Holds(env, p, r, s.symbols, o.image) && Acceptable(env, p, r, s.symbols);
    var w := Wanted(env, p, r, Resolved(env, s.symbols[r.symbol]));
    if r.kind.Abs64? || r.kind.Abs32? || r.kind.Abs32S? {
      FieldDecodes(r.kind, w);
    }
    if r.kind.Pc32? {
      RelativeDecodes(w);
    }
  }

  // ---- The same from the environment alone ----

  /** Relocations against such symbols are carried out: they have a section, or a place that is no function. */
  predicate IsCarriedOut(env: Env, s: Symbol) {
    match s.section
    case At(_) => true
    case Undefined => !env.lookup(s.name).AsFunction? && !env.lookup(s.name).Nowhere?
    case _ => false
  }

  /** A global symbol is listed by an upper-case letter, a local one by a lower-case letter. */
  predicate Visible(bind: nat, kind: nat) {
    (bind == 1 && 'A' as int <= kind <= 'Z' as int) || (bind == 0 && 'a' as int <= kind <= 'z' as int)
  }

  predicate LastVisible(entries: seq<SystemMapEntry>, bind: nat, i: nat)
    requires i < |entries|
  {
    Visible(bind, entries[i].kind) && forall j :: i < j < |entries| ==> !Visible(bind, entries[j].kind)
  }

  predicate NoneVisible(entries: seq<SystemMapEntry>, bind: nat) {
    forall j :: 0 <= j < |entries| ==> !Visible(bind, entries[j].kind)
  }

  /** The value that a symbol has once it is resolved. */
  ghost predicate Denotes(env: Env, s: Symbol, v: Word) {
    match s.section
    case Common => v == s.value
    case Absolute => v == s.value
    case At(index) =>
      var base := if index == env.percpuSection then env.percpuBase else env.inMem(index);
      if s.value < base then v == (s.value + base) % 0x1_0000_0000_0000_0000 else v == s.value
    case Undefined =>
      match env.lookup(s.name)
      case InSymbolTable(a) => v == a
      case AsVariable(a) => v == a
      case AsFunction(a) => v == a
      case Nowhere => v == s.value
      case InSystemMap(entries) =>
        || (exists i: nat :: i < |entries| && LastVisible(entries, s.bind, i) && v == entries[i].address)
        || (NoneVisible(entries, s.bind) && v == s.value)
  }

  lemma {:induction false} MapDenotes(entries: seq<SystemMapEntry>, bind: nat, value: Word)
    ensures var v := FromSystemMap(entries, bind, value);
            || (exists i: nat :: i < |entries| && LastVisible(entries, bind, i) && v == entries[i].address)
            || (NoneVisible(entries, bind) && v == value)
  {
    if entries != [] {
      var n := |entries| - 1;
      if Visible(bind, entries[n].kind) {
        assert LastVisible(entries, bind, n);
      } else {
        MapDenotes(entries[..n], bind, value);
        if i: nat :| i < n && LastVisible(entries[..n], bind, i)
                     && FromSystemMap(entries[..n], bind, value) == entries[..n][i].address {
          assert forall j :: i < j < n ==> entries[..n][j] == entries[j];
          assert LastVisible(entries, bind, i);
        } else {
          assert forall j :: 0 <= j < n ==> entries[..n][j] == entries[j];
        }
      }
    }
  }

  lemma LastVisibleOnce(entries: seq<SystemMapEntry>, bind: nat, i: nat, j: nat)
    requires i < |entries| && j < |entries| && LastVisible(entries, bind, i)
    ensures LastVisible(entries, bind, j) ==> i == j
    ensures !NoneVisible(entries, bind)
  {
  }

  /** Resolving gives a symbol exactly that value. */
  lemma ResolvedDenotes(env: Env, s: Symbol, v: Word)
    ensures Denotes(env, s, v) <==> v == Resolved(env, s).value
  {
    if s.section.Undefined? && env.lookup(s.name).InSystemMap? {
      var entries := env.lookup(s.name).entries;
      MapDenotes(entries, s.bind, s.value);
      hide LastVisible, NoneVisible, FromSystemMap;
      forall i: nat, j: nat | i < |entries| && j < |entries| && LastVisible(entries, s.bind, i)
        ensures !NoneVisible(entries, s.bind) && (LastVisible(entries, s.bind, j) ==> i == j)
      {
        LastVisibleOnce(entries, s.bind, i, j);
      }
    }
  }

  lemma CarriedOutMeans(env: Env, s: Symbol)
    ensures IsCarriedOut(env, s) <==> !Skipped(env, s)
  {
  }

  /** The 4 or 8 bytes at a relocation's place, as a number. */
  function NumberAt(p: Pass, r: Rela, image: seq<byte>, width: nat): nat
    requires p.sectionOffset + r.offset + width <= |image|
  {
    FromLittle(image[p.sectionOffset + r.offset..p.sectionOffset + r.offset + width])
  }

  /** What the place of a relocation holds, for a symbol with value `v`. */
  predicate PlaceHolds(env: Env, p: Pass, r: Rela, s: Symbol, v: Word, image: seq<byte>)
    requires Inside(p, r, |image|)
  {
    match r.kind
    case Abs64 => NumberAt(p, r, image, 8) == (v + r.addend) % 0x1_0000_0000_0000_0000
    case Abs32 => NumberAt(p, r, image, 4) == (v + r.addend) % 0x1_0000_0000_0000_0000
    case Abs32S => NumberAt(p, r, image, 4) == (v + r.addend) % 0x1_0000_0000
    case Pc32 =>
      if !p.isAltInstructions then
        NumberAt(p, r, image, 4) == (v + r.addend - (p.sectionMem + r.offset)) % 0x1_0000_0000
      else
        // The distance as it is in the file.
        s.section.At? && s.section.index != env.percpuSection ==>
          NumberAt(p, r, image, 4) ==
          (v + r.addend - env.inMem(s.section.index) + env.inElf(s.section.index)
            - (p.file + p.sectionOffset + r.offset)) % 0x1_0000_0000
    case NoRelocation => true
    case OtherKind => true
  }
  lemma ResolvedKeepsSection(env: Env, s: Symbol)
    ensures Resolved(env, s).section == s.section
  {
  }

  lemma LittleHolds(kind: Kind, val: Word)
    ensures kind.Abs64? ==> FromLittle(Field(kind, val)) == val
    ensures kind.Abs32? || kind.Abs32S? || kind.Pc32? ==> FromLittle(Field(kind, val)) == val % 0x1_0000_0000
  {
    LittleWords();
    hide Little, FromLittle, Power256;
    if kind.Abs64? { LittleRoundTrip(val, 8); }
    if kind.Abs32? || kind.Abs32S? || kind.Pc32? { LittleRoundTrip(Low(val, W32), 4); }
  }

  lemma LowOfSums(a: int, y: int)
    ensures ToWord(ToWord(a) - y) % 0x1_0000_0000 == (a - y) % 0x1_0000_0000
    ensures ToWord(a) % 0x1_0000_0000 == a % 0x1_0000_0000
  {
    LowOfWord(a, W32);
    LowOfWord(ToWord(a) - y, W32);
    LowOfSum(ToWord(a), y, a, y, W32);
  }

  lemma WantedIs(env: Env, p: Pass, r: Rela, s: Symbol, v: Word)
    requires Denotes(env, s, v)
    ensures var w := Wanted(env, p, r, Resolved(env, s));
            && (r.kind != Pc32 ==> w == (v + r.addend) % 0x1_0000_0000_0000_0000)
            && (r.kind == Pc32 && !p.isAltInstructions ==>
                  w % 0x1_0000_0000 == (v + r.addend - (p.sectionMem + r.offset)) % 0x1_0000_0000)
            && (r.kind == Pc32 && p.isAltInstructions && s.section.At? && s.section.index != env.percpuSection ==>
                  w % 0x1_0000_0000 == (v + r.addend - env.inMem(s.section.index) + env.inElf(s.section.index)
                    - (p.file + p.sectionOffset + r.offset)) % 0x1_0000_0000)
  {
    ResolvedDenotes(env, s, v);
    ResolvedKeepsSection(env, s);
    hide Denotes, Resolved;
    LowOfSums(v + r.addend, p.sectionMem + r.offset);
    if s.section.At? && s.section.index != env.percpuSection {
      var y := env.inMem(s.section.index) - env.inElf(s.section.index) + (p.file + p.sectionOffset + r.offset);
      LowOfSums(v + r.addend, y);
    }
  }

  lemma HoldsPlace(env: Env, p: Pass, r: Rela, symbols: seq<Symbol>, v: Word, image: seq<byte>)
    requires r.symbol < |symbols| && Inside(p, r, |image|)
    requires Holds(env, p, r, symbols, image) && Acceptable(env, p, r, symbols)
    requires IsCarriedOut(env, symbols[r.symbol]) && Denotes(env, symbols[r.symbol], v)
    ensures PlaceHolds(env, p, r, symbols[r.symbol], v, image)
  {
    var s := symbols[r.symbol];
    var w := Wanted(env, p, r, Resolved(env, s));
    CarriedOutMeans(env, s);
    WantedIs(env, p, r, s, v);
    LittleHolds(r.kind, w);
    hide Wanted, Resolved, Denotes, Field, FromLittle, Skipped, IsCarriedOut;
    if Determined(env, p, r, s) {
      WantedIsPlaced(env, p, r, s, v, w, image);
    }
  }

  lemma WantedIsPlaced(env: Env, p: Pass, r: Rela, s: Symbol, v: Word, w: Word, image: seq<byte>)
    requires Inside(p, r, |image|) && Determined(env, p, r, s) && Fits(r.kind, w)
    requires r.kind.Abs64? ==> FromLittle(FieldOf(p, r, image)) == w
    requires r.kind.Abs32? || r.kind.Abs32S? || r.kind.Pc32? ==> FromLittle(FieldOf(p, r, image)) == w % 0x1_0000_0000
    requires r.kind != Pc32 ==> w == (v + r.addend) % 0x1_0000_0000_0000_0000
    requires r.kind == Pc32 && !p.isAltInstructions ==>
               w % 0x1_0000_0000 == (v + r.addend - (p.sectionMem + r.offset)) % 0x1_0000_0000
    requires r.kind == Pc32 && p.isAltInstructions && s.section.At? && s.section.index != env.percpuSection ==>
               w % 0x1_0000_0000 == (v + r.addend - env.inMem(s.section.index) + env.inElf(s.section.index)
                 - (p.file + p.sectionOffset + r.offset)) % 0x1_0000_0000
    ensures PlaceHolds(env, p, r, s, v, image)
  {
    hide FromLittle;
    LowOfSums(v + r.addend, 0);
  }

  /**
   * After a return value of zero, the place of every relocation that is carried out holds the number that its
   * kind demands, for the value that its symbol has in the file, the module, the symbol table or the map.
   */
  lemma RelocatedPlaces(env: Env, p: Pass, s: State, k: nat, v: Word)
    requires AllSound(p, p.relas, s) && AllSettling(env, s.symbols) && AllApart(p.relas)
    requires Run(env, p, p.relas, s).Done? && k < |p.relas|
    requires IsCarriedOut(env, s.symbols[p.relas[k].symbol]) && Denotes(env, s.symbols[p.relas[k].symbol], v)
    ensures Sound(p, p.relas[k], Run(env, p, p.relas, s).state)
    ensures PlaceHolds(env, p, p.relas[k], s.symbols[p.relas[k].symbol], v, Run(env, p, p.relas, s).state.image)
  {
    hide Run, Step, AllSettling, AllApart, Denotes, PlaceHolds, Holds, Acceptable, IsCarriedOut;
    RunHolds(env, p, p.relas, s);
    HoldsPlace(env, p, p.relas[k], s.symbols, v, Run(env, p, p.relas, s).state.image);
  }

  /** A symbol that is mentioned has that value afterwards. */
  lemma FinalSymbols(env: Env, p: Pass, s: State, i: nat, v: Word)
    requires AllSound(p, p.relas, s) && AllSettling(env, s.symbols) && Run(env, p, p.relas, s).Done?
    requires i < |s.symbols| && Mentioned(p.relas, i) && Denotes(env, s.symbols[i], v)
    ensures Run(env, p, p.relas, s).state.symbols[i] == s.symbols[i].(value := v)
  {
    hide Run, AllSettling, AllSound, Denotes;
    RunSymbols(env, p, p.relas, s, s.symbols);
    ResolvedDenotes(env, s.symbols[i], v);
  }

  /** Whether a value can be stored for a relocation of this kind. */
  predicate CanStore(kind: Kind, val: Word) {
    match kind
    case NoRelocation => true
    case Abs64 => true
    case Pc32 => true
    case Abs32 => val < 0x1_0000_0000
    case Abs32S => val < 0x8000_0000 || val >= 0xFFFF_FFFF_8000_0000
    case OtherKind => false
  }

  /** The relocation is not carried out, or its value can be stored. */
  ghost predicate Storable(env: Env, r: Rela, s: Symbol) {
    forall v: Word :: IsCarriedOut(env, s) && Denotes(env, s, v) ==>
      CanStore(r.kind, (v + r.addend) % 0x1_0000_0000_0000_0000)
  }

  lemma FitsMeans(kind: Kind, val: Word)
    ensures Fits(kind, val) <==> CanStore(kind, val)
  {
    var v := Signed(val, W64);
    assert v == if val < 0x8000_0000_0000_0000 then val else val - 0x1_0000_0000_0000_0000;
    assert ToWord(v) == val;
    LowOfWord(v, W32);
    LowDeterminesValue(val, v, INT32);
    ConvertIdentity(v, INT32);
    LowIsIdentity(val, W32);
    hide Low, ToWord;
  }

  /** Zero is returned exactly if no relocation that is carried out is of an unknown kind or overflows. */
  lemma SucceedsIff(env: Env, p: Pass, s: State)
    requires AllSound(p, p.relas, s) && AllSettling(env, s.symbols) && AllApart(p.relas)
    ensures Run(env, p, p.relas, s).Done? <==>
            forall k :: 0 <= k < |p.relas| ==> Storable(env, p.relas[k], s.symbols[p.relas[k].symbol])
  {
    RunHolds(env, p, p.relas, s);
    forall k | 0 <= k < |p.relas|
      ensures Acceptable(env, p, p.relas[k], s.symbols) <==>
                Storable(env, p.relas[k], s.symbols[p.relas[k].symbol])
    {
      AcceptableMeans(env, p, p.relas[k], s.symbols);
    }
    hide Run, AllSettling, AllApart, Acceptable, Storable;
  }

  lemma AcceptableMeans(env: Env, p: Pass, r: Rela, symbols: seq<Symbol>)
    requires r.symbol < |symbols|
    ensures Acceptable(env, p, r, symbols) <==> Storable(env, r, symbols[r.symbol])
  {
    var s := symbols[r.symbol];
    var v := Resolved(env, s).value;
    CarriedOutMeans(env, s);
    ResolvedDenotes(env, s, v);
    WantedIs(env, p, r, s, v);
    FitsMeans(r.kind, Wanted(env, p, r, Resolved(env, s)));
    forall w: Word | Denotes(env, s, w) ensures w == v { ResolvedDenotes(env, s, w); }
    hide Denotes, Resolved, Wanted, Skipped, IsCarriedOut;
  }

  /** How many bytes a relocation of this kind stores. */
  function Stored(kind: Kind): nat {
    match kind
    case Abs64 => 8
    case Abs32 => 4
    case Abs32S => 4
    case Pc32 => 4
    case _ => 0
  }

  predicate Touches(env: Env, p: Pass, r: Rela, s: Symbol, x: nat) {
    IsCarriedOut(env, s) && p.sectionOffset + r.offset <= x < p.sectionOffset + r.offset + Stored(r.kind)
  }

  /** A byte of the file is as before unless it lies at the place of a relocation that is carried out. */
  lemma {:induction false} OnlyPlacesChange(env: Env, p: Pass, relas: seq<Rela>, s: State, x: nat)
    requires AllSound(p, relas, s) && AllSettling(env, s.symbols) && x < |s.image|
    requires forall k :: 0 <= k < |relas| ==> !Touches(env, p, relas[k], s.symbols[relas[k].symbol], x)
    ensures Run(env, p, relas, s).state.image[x] == s.image[x]
  {
    if relas != [] {
      var front, last := relas[..|relas| - 1], relas[|relas| - 1];
      SoundFront(p, relas, s);
      assert forall k :: 0 <= k < |front| ==> front[k] == relas[k];
      OnlyPlacesChange(env, p, front, s, x);
      RunSymbols(env, p, front, s, s.symbols);
      var before := Run(env, p, front, s);
      assert !Touches(env, p, last, s.symbols[last.symbol], x);
      if before.Done? {
        ResolvedTwice(env, s.symbols[last.symbol]);
        CarriedOutMeans(env, s.symbols[last.symbol]);
        StepLeaves(env, p, last, before.state, s.symbols[last.symbol], x);
      }
    }
  }

  lemma StepLeaves(env: Env, p: Pass, r: Rela, s: State, original: Symbol, x: nat)
    requires Sound(p, r, s) && x < |s.image| && !Touches(env, p, r, original, x)
    requires IsCarriedOut(env, original) <==> !Skipped(env, s.symbols[r.symbol])
    ensures Step(env, p, r, s).state.image[x] == s.image[x]
  {
    ResolvedTwice(env, s.symbols[r.symbol]);
    hide Resolved, Skipped, IsCarriedOut, Value, Fits, Settling, Store;
    forall f: seq<byte> | |f| == Width(r.kind)
      ensures Store(s.image, p.sectionOffset + r.offset, f)[x] ==
              if p.sectionOffset + r.offset <= x < p.sectionOffset + r.offset + |f|
              then f[x - (p.sectionOffset + r.offset)] else s.image[x]
    {
      StoreAt(s.image, p.sectionOffset + r.offset, f, x);
    }
  }

  // ---- Several relocation sections, several times ----

  /** The loader goes on with the next section whatever the result of the one before. */
  function Passes(env: Env, ps: seq<Pass>, s: State): (o: State)
    requires forall k :: 0 <= k < |ps| ==> AllSound(ps[k], ps[k].relas, s)
    ensures |o.image| == |s.image| && |o.symbols| == |s.symbols|
  {
    if ps == [] then s
    else
      var front, last := ps[..|ps| - 1], ps[|ps| - 1];
      assert forall k :: 0 <= k < |front| ==> front[k] == ps[k];
      var before := Passes(env, front, s);
      SoundLater(last, last.relas, s, before);
      Run(env, last, last.relas, before).state
  }

  lemma SoundLater(p: Pass, relas: seq<Rela>, s: State, o: State)
    requires AllSound(p, relas, s) && |o.image| == |s.image| && |o.symbols| == |s.symbols|
    ensures AllSound(p, relas, o)
  {
    assert forall k :: 0 <= k < |relas| ==> Sound(p, relas[k], s) && Sound(p, relas[k], o);
  }

  /**
   * Over any relocation sections in any order, repeated or not, every symbol is resolved once or
   * not at all: a section-relative one gets its section's base at most once.
   */
  lemma {:induction false} PassesResolveOnce(env: Env, ps: seq<Pass>, s: State)
    requires forall k :: 0 <= k < |ps| ==> AllSound(ps[k], ps[k].relas, s)
    requires AllSettling(env, s.symbols)
    ensures OnceOrNever(env, s.symbols, Passes(env, ps, s).symbols)
  {
    hide AllSettling, Resolved;
    if ps != [] {
      var front, last := ps[..|ps| - 1], ps[|ps| - 1];
      assert forall k :: 0 <= k < |front| ==> front[k] == ps[k];
      PassesResolveOnce(env, front, s);
      var before := Passes(env, front, s);
      SoundLater(last, last.relas, s, before);
      RunSymbols(env, last, last.relas, before, s.symbols);
    }
  }

  // ---- The loop ----

  method FindInSystemMap(entries: seq<SystemMapEntry>, bind: nat, oldValue: Word) returns (value: Word)
    ensures value == FromSystemMap(entries, bind, oldValue)
  {
    value := oldValue;
    var i := 0;
    while i < |entries|
      invariant 0 <= i <= |entries|
      invariant value == FromSystemMap(entries[..i], bind, oldValue)
    {
      var current := entries[i];
      assert entries[..i + 1][..i] == entries[..i];
      if bind == 1 && 0x41 <= current.kind <= 0x5a {
        value := current.address;
      } else if bind == 0 && 0x61 <= current.kind <= 0x7a {
        value := current.address;
      }
      i := i + 1;
    }
    assert entries[..|entries|] == entries;
  }

  /** A module's file while it is being relocated. */
  class ElfFile {
    var content: array<byte>
    var symbols: seq<Symbol>

    /** Resolves the symbol of a relocation in place; says whether the relocation is to be carried out. */
    method Resolve(env: Env, index: nat, relMem: Word, relElf: Word)
      returns (relMem': Word, relElf': Word, carryOut: bool)
      requires index < |symbols|
      modifies this`symbols
      ensures symbols == old(symbols)[index := Resolved(env, old(symbols)[index])]
      ensures carryOut <==> !Skipped(env, old(symbols)[index])
      ensures var s := State([], old(symbols), relMem, relElf);
              var l := Located(env, old(symbols)[index], s);
              relMem' == l.relMem && relElf' == l.relElf
    {
      var sym := symbols[index];
      relMem', relElf', carryOut := relMem, relElf, true;
      match sym.section {
        case Common => carryOut := false;
        case Absolute => carryOut := false;
        case Undefined =>
          match env.lookup(sym.name) {
            case InSymbolTable(v) => sym := sym.(value := v);
            case InSystemMap(entries) =>
              var v := FindInSystemMap(entries, sym.bind, sym.value);
              sym := sym.(value := v);
            case AsVariable(v) => sym := sym.(value := v);
            case AsFunction(v) =>
              sym := sym.(value := v);
              carryOut := false;
            case Nowhere => carryOut := false;
          }
        case At(section) =>
          if section == env.percpuSection {
            relMem' := env.percpuBase;
          } else {
            relElf' := env.inElf(section);
            relMem' := env.inMem(section);
          }
          if sym.value < relMem' {
            sym := sym.(value := ToWord(sym.value + relMem'));
          }
      }
      symbols := symbols[index := sym];
    }

    /** Applies one relocation section; the result is zero, or minus ENOEXEC for the first it cannot do. */
    method ApplyRelocateAdd(env: Env, p: Pass) returns (ret: int)
      requires AllSound(p, p.relas, State(content[..], symbols, 0, 0))
      modifies this`symbols, content
      ensures var o := Run(env, p, p.relas, State(old(content[..]), old(symbols), 0, 0));
              content[..] == o.state.image && symbols == o.state.symbols && ret == if o.Done? then 0 else -8
    {
      ghost var start := State(content[..], symbols, 0, 0);
      var relMem: Word, relElf: Word := 0, 0;
      var i := 0;
      assert p.relas[..0] == [];
      hide Step, Inside, AllSound, Run;
      while i < |p.relas|
        invariant 0 <= i <= |p.relas|
        invariant AllSound(p, p.relas[..i], start)
        invariant Run(env, p, p.relas[..i], start) == Done(State(content[..], symbols, relMem, relElf))
      {
        var r := p.relas[i];
        ghost var now := State(content[..], symbols, relMem, relElf);
        RunStep(env, p, i, start, now);
        var ok;
        relMem, relElf, ok := Relocate(env, p, r, relMem, relElf);
        if !ok {
          RunStops(env, p, i, start);
          return -8;
        }
        i := i + 1;
      }
      assert p.relas[..|p.relas|] == p.relas;
      ret := 0;
    }

    /** One relocation: false if the loader has to give up. */
    method Relocate(env: Env, p: Pass, r: Rela, relMem: Word, relElf: Word)
      returns (relMem': Word, relElf': Word, ok: bool)
      requires Sound(p, r, State(content[..], symbols, relMem, relElf))
      modifies this`symbols, content
      ensures var o := State(content[..], symbols, relMem', relElf');
              Step(env, p, r, State(old(content[..]), old(symbols), relMem, relElf)) == if ok then Done(o)
                        else NoExec(o)
    {
      hide Store, Value, Fits, Field, Resolved;
      ResolvedTwice(env, symbols[r.symbol]);
      var carryOut;
      relMem', relElf', carryOut := Resolve(env, r.symbol, relMem, relElf);
      ok := true;
      if carryOut {
        ok := StoreField(p, r, symbols[r.symbol].value, relMem', relElf');
      }
    }

    /** Stores the value of a relocation; false for a kind that is not known or a value that does not fit. */
    method StoreField(p: Pass, r: Rela, symbol: Word, relMem: Word, relElf: Word) returns (ok: bool)
      requires Inside(p, r, content.Length)
      modifies content
      ensures var val := Value(p, r, symbol, relMem, relElf);
              content[..] == Store(old(content[..]), p.sectionOffset + r.offset, Field(r.kind, val))
              && (ok <==> Fits(r.kind, val))
    {
      hide Store, Little, FromLittle;
      var loc := p.sectionOffset + r.offset;
      var val := ToWord(symbol + r.addend);
      StoredNothing(content[..], loc, []);
      match r.kind
      case NoRelocation => ok := true;
      case Abs64 =>
        Copy(content, loc, Little(val, 8));
        ok := true;
      case Abs32 =>
        Copy(content, loc, Little(Low(val, W32), 4));
        ok := val == Low(val, W32);
      case Abs32S =>
        Copy(content, loc, Little(Low(val, W32), 4));
        ok := Signed(val, W64) == Signed(val, W32);
      case Pc32 =>
        if p.isAltInstructions {
          val := ToWord(val - relMem + relElf - (p.file + p.sectionOffset + r.offset));
        } else {
          val := ToWord(val - (p.sectionMem + r.offset));
        }
        Copy(content, loc, Little(Low(val, W32), 4));
        ok := true;
      case OtherKind => ok := false;
    }
  }

  lemma RunStep(env: Env, p: Pass, i: nat, start: State, now: State)
    requires AllSound(p, p.relas, start) && i < |p.relas| && AllSound(p, p.relas[..i], start)
    requires Run(env, p, p.relas[..i], start) == Done(now)
    ensures Sound(p, p.relas[i], now) && AllSound(p, p.relas[..i + 1], start)
    ensures Run(env, p, p.relas[..i + 1], start) == Step(env, p, p.relas[i], now)
  {
    hide Step, Inside;
    var front := p.relas[..i + 1];
    assert Sound(p, p.relas[i], start) && Sound(p, p.relas[i], now) by { assert |now.image| == |start.image|; }
    assert forall k :: 0 <= k < |front| ==> front[k] == p.relas[k] && Sound(p, p.relas[k], start);
    assert front[..i] == p.relas[..i];
  }

  lemma {:induction false} RunStops(env: Env, p: Pass, i: nat, start: State)
    requires AllSound(p, p.relas, start) && i < |p.relas| && AllSound(p, p.relas[..i + 1], start)
    requires Run(env, p, p.relas[..i + 1], start).NoExec?
    ensures Run(env, p, p.relas, start) == Run(env, p, p.relas[..i + 1], start)
  {
    RunStopsAt(env, p, p.relas, i + 1, start);
  }

  lemma {:induction false} RunStopsAt(env: Env, p: Pass, relas: seq<Rela>, n: nat, start: State)
    requires AllSound(p, relas, start) && n <= |relas| && AllSound(p, relas[..n], start)
    requires Run(env, p, relas[..n], start).NoExec?
    ensures Run(env, p, relas, start) == Run(env, p, relas[..n], start)
  {
    hide Step, Inside;
    if n == |relas| {
      assert relas[..n] == relas;
    } else {
      SoundFront(p, relas, start);
      assert relas[..|relas| - 1][..n] == relas[..n];
      RunStopsAt(env, p, relas[..|relas| - 1], n, start);
    }
  }
}
