/** The table of loaded memory dumps: slots are reused, and a dump keeps its slot while it is loaded. */
module DumpSlots {
  datatype Slot = Free | Dump(fileName: string)

  const NO_SYMBOLS_LOADED := -1
  const FILE_NOT_FOUND := -2
  const INVALID_INDEX := -5

  /** Text that reads as a number is an index, any other text a file name. */
  datatype Target = Index(index: int) | FileName(fileName: string)

  /** A file that is found may still fail to open as a dump, after its slot has been made. */
  datatype Op = Load(fileName: string, symbols: bool, found: bool, opens: bool) | Unload(target: Target)

  datatype Result = Value(code: int) | Exception

  predicate Unique(slots: seq<Slot>) {
    forall i, j :: 0 <= i < j < |slots| && slots[i].Dump? ==> slots[i] != slots[j]
  }

  predicate Holds(slots: seq<Slot>, fileName: string) { Dump(fileName) in slots }

  predicate Attempts(slots: seq<Slot>, op: Op) {
    op.Load? && op.symbols && op.found && !Holds(slots, op.fileName)
  }

  /** The first slot with this content; the length of the table if there is none. */
  function Find(slots: seq<Slot>, s: Slot): (i: nat)
    ensures i <= |slots| && (i < |slots| ==> slots[i] == s) && forall k :: 0 <= k < i ==> slots[k] != s
  {
    if slots == [] || slots[0] == s then 0 else 1 + Find(slots[1..], s)
  }

  function Code(slots: seq<Slot>, op: Op): Result {
    match op
    case Load(file, symbols, found, opens) =>
      if !symbols then Value(NO_SYMBOLS_LOADED)
      else if !found then Value(FILE_NOT_FOUND)
      else if Holds(slots, file) then Value(Find(slots, Dump(file)))
      else if opens then Value(Find(slots, Free))
      else Exception
    case Unload(Index(i)) => Value(if 0 <= i < |slots| && slots[i].Dump? then i else INVALID_INDEX)
    case Unload(FileName(f)) => Value(if Holds(slots, f) then Find(slots, Dump(f)) else FILE_NOT_FOUND)
  }

  function Next(slots: seq<Slot>, op: Op): seq<Slot> {
    match op
    case Load(file, _, _, opens) =>
      if !Attempts(slots, op) then slots
      else
        var i := Find(slots, Free);
        var room := if i == |slots| then slots + [Free] else slots;
        if opens then room[i := Dump(file)] else room
    case Unload(_) =>
      var c := Code(slots, op);
      if c.Value? && 0 <= c.code < |slots| then slots[c.code := Free] else slots
  }

  function Run(ops: seq<Op>): seq<Slot> {
    if ops == [] then [] else Next(Run(ops[..|ops| - 1]), ops[|ops| - 1])
  }

  function Loaded(slots: seq<Slot>): nat {
    if slots == [] then 0 else Loaded(slots[..|slots| - 1]) + (if slots[|slots| - 1].Dump? then 1 else 0)
  }

  /** The most dumps that were ever loaded, or being loaded, at once. */
  function Peak(ops: seq<Op>): nat {
    if ops == [] then 0
    else
      var front, op := ops[..|ops| - 1], ops[|ops| - 1];
      var now := Loaded(Run(front)) + if Attempts(Run(front), op) then 1 else 0;
      if now > Peak(front) then now else Peak(front)
  }

  // ---- What one call does ----

  /** Unloading by index frees that slot and answers the index; an index of no dump is refused with -5. */
  lemma UnloadsIndex(slots: seq<Slot>, i: int)
    ensures 0 <= i < |slots| && slots[i] != Free ==>
              Code(slots, Unload(Index(i))) == Value(i) && Next(slots, Unload(Index(i))) == slots[i := Free]
    ensures !(0 <= i < |slots| && slots[i] != Free) ==>
              Code(slots, Unload(Index(i))) == Value(-5) && Next(slots, Unload(Index(i))) == slots
  {
  }

  /** Unloading by name frees the file's slot and answers its index; a file that is not loaded is refused with -2. */
  lemma UnloadsFile(slots: seq<Slot>, file: string)
    ensures Dump(file) !in slots ==>
              Code(slots, Unload(FileName(file))) == Value(-2) && Next(slots, Unload(FileName(file))) == slots
    ensures Dump(file) in slots ==>
              exists i: nat ::
                && i < |slots| && slots[i] == Dump(file) && Dump(file) !in slots[..i]
                && Code(slots, Unload(FileName(file))) == Value(i)
                && Next(slots, Unload(FileName(file))) == slots[i := Free]
  {
    if Dump(file) in slots {
      var i := Find(slots, Dump(file));
      assert slots[i] == Dump(file) && Dump(file) !in slots[..i];
    }
  }

  /** Without symbols, or without the file, loading is refused with -1 or -2 and nothing changes. */
  lemma RefusesLoad(slots: seq<Slot>, file: string, found: bool, opens: bool)
    ensures Code(slots, Load(file, false, found, opens)) == Value(-1)
    ensures Next(slots, Load(file, false, found, opens)) == slots
    ensures Code(slots, Load(file, true, false, opens)) == Value(-2)
    ensures Next(slots, Load(file, true, false, opens)) == slots
  {
  }

  /** A file that is loaded already is answered its slot, and nothing changes. */
  lemma LoadsOnce(slots: seq<Slot>, i: nat, opens: bool)
    requires i < |slots| && slots[i] != Free && slots[i] !in slots[..i]
    ensures Code(slots, Load(slots[i].fileName, true, true, opens)) == Value(i)
    ensures Next(slots, Load(slots[i].fileName, true, true, opens)) == slots
  {
    FoundHere(slots, slots[i], i);
  }

  /** Any other file goes to the first free slot, else to a new one behind all others, which stay as they are. */
  lemma LoadsIntoFirstFree(slots: seq<Slot>, file: string)
    requires Dump(file) !in slots
    ensures exists i: nat ::
              && i <= |slots| && Free !in slots[..i] && Code(slots, Load(file, true, true, true)) == Value(i)
              && if i < |slots|
                 then slots[i] == Free && Next(slots, Load(file, true, true, true)) == slots[i := Dump(file)]
                 else Next(slots, Load(file, true, true, true)) == slots + [Dump(file)]
    ensures Code(slots, Load(file, true, true, false)) == Exception
    ensures Next(slots, Load(file, true, true, false)) == if Free in slots then slots else slots + [Free]
  {
    var i := Find(slots, Free);
    assert Free !in slots[..i];
    if i == |slots| {
      assert slots[..i] == slots;
      assert (slots + [Free])[i := Dump(file)] == slots + [Dump(file)];
    }
  }

  // ---- No file occupies two slots, and a dump stays where it is ----

  lemma NextUnique(slots: seq<Slot>, op: Op)
    requires Unique(slots)
    ensures Unique(Next(slots, op))
  {
  }

  lemma {:induction false} RunUnique(ops: seq<Op>)
    ensures Unique(Run(ops))
  {
    if ops != [] {
      RunUnique(ops[..|ops| - 1]);
      NextUnique(Run(ops[..|ops| - 1]), ops[|ops| - 1]);
    }
  }

  /** A dump leaves its slot only by being unloaded from it. */
  lemma DumpStays(slots: seq<Slot>, op: Op, i: nat)
    requires Unique(slots) && i < |slots| && slots[i].Dump?
    ensures |slots| <= |Next(slots, op)|
    ensures Next(slots, op)[i] == if op.Unload? && Code(slots, op) == Value(i) then Free else slots[i]
  {
  }

  predicate NeverUnloaded(ops: seq<Op>, from: nat, i: int)
    requires from <= |ops|
  {
    forall k :: from <= k < |ops| && ops[k].Unload? ==> Code(Run(ops[..k]), ops[k]) != Value(i)
  }

  /** Over a whole run a dump keeps its index, and loading its file again answers that index. */
  lemma {:induction false} IndexIsStable(ops: seq<Op>, from: nat, i: nat)
    requires from <= |ops| && i < |Run(ops[..from])| && Run(ops[..from])[i].Dump? && NeverUnloaded(ops, from, i)
    ensures i < |Run(ops)| && Run(ops)[i] == Run(ops[..from])[i]
    ensures forall opens :: Code(Run(ops), Load(Run(ops)[i].fileName, true, true, opens)) == Value(i)
    decreases |ops| - from, |ops|
  {
    if from == |ops| {
      assert ops[..from] == ops;
    } else {
      var front, op := ops[..|ops| - 1], ops[|ops| - 1];
      assert front[..from] == ops[..from];
      assert ops[..|ops| - 1] == front;
      forall k | from <= k < |front| && front[k].Unload? ensures Code(Run(front[..k]), front[k]) != Value(i) {
        assert front[..k] == ops[..k] && front[k] == ops[k];
      }
      IndexIsStable(front, from, i);
      RunUnique(front);
      DumpStays(Run(front), op, i);
    }
    RunUnique(ops);
    OnlyThere(Run(ops), i);
  }

  lemma OnlyThere(slots: seq<Slot>, i: nat)
    requires Unique(slots) && i < |slots| && slots[i].Dump?
    ensures Find(slots, slots[i]) == i
  {
  }

  // ---- The table is as long as needed ----

  lemma {:induction false} LoadedAtMost(slots: seq<Slot>)
    ensures Loaded(slots) <= |slots|
    ensures Loaded(slots) == |slots| <==> forall k :: 0 <= k < |slots| ==> slots[k].Dump?
  {
    if slots != [] {
      LoadedAtMost(slots[..|slots| - 1]);
    }
  }

  /** The table is exactly as long as the largest number of dumps loaded, or being loaded, at once. */
  lemma {:induction false} LengthIsPeak(ops: seq<Op>)
    ensures |Run(ops)| == Peak(ops)
  {
    if ops != [] {
      var slots := Run(ops[..|ops| - 1]);
      LengthIsPeak(ops[..|ops| - 1]);
      LoadedAtMost(slots);
    }
  }

  /** The most dumps that were ever loaded at once. */
  function PeakLoaded(ops: seq<Op>): nat {
    if ops == [] then 0
    else
      var before, now := PeakLoaded(ops[..|ops| - 1]), Loaded(Run(ops));
      if now > before then now else before
  }

  lemma {:induction false} LoadedBelowPeak(ops: seq<Op>, k: nat)
    requires k <= |ops|
    ensures Loaded(Run(ops[..k])) <= PeakLoaded(ops)
    ensures |Run(ops[..k])| <= |Run(ops)|
    decreases |ops|
  {
    if k == |ops| {
      assert ops[..k] == ops;
    } else {
      var front := ops[..|ops| - 1];
      assert front[..k] == ops[..k];
      LoadedBelowPeak(front, k);
      NeverShorter(Run(front), ops[|ops| - 1]);
    }
  }

  lemma NeverShorter(slots: seq<Slot>, op: Op)
    ensures |slots| <= |Next(slots, op)| <= |slots| + 1
  {
  }

  /** The peak was reached at some time. */
  lemma {:induction false} PeakIsReached(ops: seq<Op>) returns (k: nat)
    ensures k <= |ops| && Loaded(Run(ops[..k])) == PeakLoaded(ops)
  {
    if ops == [] || Loaded(Run(ops)) == PeakLoaded(ops) {
      k := |ops|;
      assert ops[..k] == ops;
    } else {
      var front := ops[..|ops| - 1];
      k := PeakIsReached(front);
      assert front[..k] == ops[..k];
    }
  }

  lemma {:induction false} PeakBelowLength(ops: seq<Op>)
    ensures PeakLoaded(ops) <= |Run(ops)|
  {
    LoadedAtMost(Run(ops));
    if ops != [] {
      PeakBelowLength(ops[..|ops| - 1]);
      NeverShorter(Run(ops[..|ops| - 1]), ops[|ops| - 1]);
    }
  }

  /** No slot is free. */
  predicate Full(slots: seq<Slot>) { Free !in slots }

  /** A load that does not open, while no slot is free. */
  predicate FailsOnFull(ops: seq<Op>, k: nat)
    requires k < |ops|
  {
    Attempts(Run(ops[..k]), ops[k]) && !ops[k].opens && Full(Run(ops[..k]))
  }

  /** At some time more dumps are loaded than there were slots. */
  ghost predicate Outgrown(ops: seq<Op>, k: nat)
    requires k < |ops|
  {
    exists m :: 0 <= m <= |ops| && Loaded(Run(ops[..m])) > |Run(ops[..k])|
  }

  lemma FindFree(slots: seq<Slot>)
    ensures Find(slots, Free) == |slots| <==> Full(slots)
  {
  }

  /** The table only grows when a dump is loaded, or fails to open, while no slot is free. */
  lemma Grows(slots: seq<Slot>, op: Op)
    requires |Next(slots, op)| > |slots|
    ensures Attempts(slots, op) && Full(slots) && |Next(slots, op)| == |slots| + 1
    ensures op.opens ==> Loaded(Next(slots, op)) == |slots| + 1
  {
    FindFree(slots);
    if op.opens {
      var next := Next(slots, op);
      assert next == slots + [Dump(op.fileName)];
      LoadedAtMost(slots);
      assert next[..|slots|] == slots;
    }
  }

  lemma {:induction false} LastGrowth(ops: seq<Op>) returns (k: nat)
    requires Run(ops) != []
    ensures k < |ops| && |Run(ops[..k])| + 1 == |Run(ops)| && |Run(ops[..k + 1])| == |Run(ops)|
  {
    var front := ops[..|ops| - 1];
    NeverShorter(Run(front), ops[|ops| - 1]);
    if |Run(front)| < |Run(ops)| {
      k := |ops| - 1;
      assert ops[..k + 1] == ops;
    } else {
      k := LastGrowth(front);
      assert front[..k] == ops[..k] && front[..k + 1] == ops[..k + 1];
    }
  }

  lemma RunStep(ops: seq<Op>, k: nat)
    requires k < |ops|
    ensures Run(ops[..k + 1]) == Next(Run(ops[..k]), ops[k])
  {
    assert ops[..k + 1][..k] == ops[..k];
  }

  lemma LastGrowthIsLoaded(ops: seq<Op>)
    requires forall k: nat :: k < |ops| && FailsOnFull(ops, k) ==> Outgrown(ops, k)
    ensures |Run(ops)| <= PeakLoaded(ops)
  {
    hide Run, Next, Loaded, PeakLoaded, Full, Attempts;
    if Run(ops) != [] {
      var k := LastGrowth(ops);
      RunStep(ops, k);
      Grows(Run(ops[..k]), ops[k]);
      if ops[k].opens {
        LoadedBelowPeak(ops, k + 1);
      } else {
        assert FailsOnFull(ops, k);
        var m :| 0 <= m <= |ops| && Loaded(Run(ops[..m])) > |Run(ops[..k])|;
        LoadedBelowPeak(ops, m);
      }
    }
  }

  lemma FailureLengthens(ops: seq<Op>, k: nat)
    requires k < |ops| && FailsOnFull(ops, k)
    ensures |Run(ops)| > |Run(ops[..k])|
  {
    hide Full;
    RunStep(ops, k);
    FindFree(Run(ops[..k]));
    LoadedBelowPeak(ops, k + 1);
  }

  /**
   * The table is as long as the largest number of dumps ever loaded at once, exactly if every table
   * without a free slot on which a load fails to open is outgrown by loaded dumps at some time.
   */
  lemma LengthIsPeakLoadedIff(ops: seq<Op>)
    ensures |Run(ops)| == PeakLoaded(ops) <==> forall k: nat :: k < |ops| && FailsOnFull(ops, k) ==> Outgrown(ops, k)
  {
    hide Run, FailsOnFull, PeakLoaded;
    PeakBelowLength(ops);
    if |Run(ops)| == PeakLoaded(ops) {
      var m := PeakIsReached(ops);
      forall k: nat | k < |ops| && FailsOnFull(ops, k) ensures Outgrown(ops, k) {
        FailureLengthens(ops, k);
      }
    }
    if forall k: nat :: k < |ops| && FailsOnFull(ops, k) ==> Outgrown(ops, k) {
      LastGrowthIsLoaded(ops);
    }
  }

  /** If every file that is found opens as a dump, there is no such failure. */
  lemma LengthIsPeakIfAllOpen(ops: seq<Op>)
    requires forall k :: 0 <= k < |ops| && ops[k].Load? && ops[k].found ==> ops[k].opens
    ensures |Run(ops)| == PeakLoaded(ops)
  {
    hide Run, PeakLoaded, Outgrown;
    LengthIsPeakLoadedIff(ops);
  }

  lemma OneCall(op: Op)
    ensures Run([op]) == Next([], op) && PeakLoaded([op]) == Loaded(Next([], op))
  {
    hide Next, Loaded;
    assert [op][..0] == [];
    assert Run([]) == [] && PeakLoaded([]) == 0;
  }

  lemma NoneLoaded()
    ensures Loaded([Free]) == 0
  {
    assert [Free][..0] == [];
  }

  /** A slot for a dump that was never loaded. */
  lemma FailedLoadKeepsSlot()
    ensures var ops := [Load("dump", true, true, false)];
            |Run(ops)| == 1 && PeakLoaded(ops) == 0
  {
    var ops := [Load("dump", true, true, false)];
    hide Run, Next, PeakLoaded, Loaded, Code, Find;
    LoadsIntoFirstFree([], "dump");
    assert [] + [Free] == [Free];
    OneCall(ops[0]);
    NoneLoaded();
  }

  class KernelSymbols {
    var memDumps: seq<Slot>

    /** `symbols`, `found` and `opens` are what the program finds when it asks for them. */
    method LoadMemDump(fileName: string, symbols: bool, found: bool, opens: bool) returns (r: Result)
      modifies this
      ensures memDumps == Next(old(memDumps), Load(fileName, symbols, found, opens))
      ensures r == Code(old(memDumps), Load(fileName, symbols, found, opens))
    {
      if !symbols {
        return Value(NO_SYMBOLS_LOADED);
      }
      if !found {
        return Value(FILE_NOT_FOUND);
      }
      var index := -1;
      var i := 0;
      while i < |memDumps|
        invariant 0 <= i <= |memDumps| && memDumps == old(memDumps)
        invariant Dump(fileName) !in memDumps[..i]
        invariant index < 0 ==> index == -1 && Free !in memDumps[..i]
        invariant index >= 0 ==> index < i && index == Find(memDumps, Free)
      {
        if memDumps[i].Free? && index < 0 {
          FoundHere(memDumps, Free, i);
          index := i;
        }
        if memDumps[i] == Dump(fileName) {
          FoundHere(memDumps, Dump(fileName), i);
          return Value(i);
        }
        i := i + 1;
      }
      assert memDumps[..|memDumps|] == memDumps;
      if index < 0 {
        FoundHere(memDumps, Free, |memDumps|);
        index := |memDumps|;
        memDumps := memDumps + [Free];
      }
      if !opens {
        return Exception;
      }
      memDumps := memDumps[index := Dump(fileName)];
      r := Value(index);
    }

    method UnloadMemDump(target: Target) returns (ret: int)
      modifies this
      ensures memDumps == Next(old(memDumps), Unload(target)) && Value(ret) == Code(old(memDumps), Unload(target))
    {
      match target {
        case Index(index) =>
          ret := INVALID_INDEX;
          if 0 <= index < |memDumps| && memDumps[index].Dump? {
            ret := index;
          }
        case FileName(name) =>
          ret := FILE_NOT_FOUND;
          var i := 0;
          while i < |memDumps|
            invariant 0 <= i <= |memDumps| && Dump(name) !in memDumps[..i] && ret == FILE_NOT_FOUND
          {
            if memDumps[i] == Dump(name) {
              FoundHere(memDumps, Dump(name), i);
              ret := i;
              break;
            }
            i := i + 1;
          }
          assert memDumps[..|memDumps|] == memDumps;
      }
      if ret >= 0 {
        memDumps := memDumps[ret := Free];
      }
    }
  }

  lemma FoundHere(slots: seq<Slot>, s: Slot, i: nat)
    requires i <= |slots| && s !in slots[..i] && (i < |slots| ==> slots[i] == s)
    ensures Find(slots, s) == i
  {
    var f := Find(slots, s);
    assert forall k :: 0 <= k < i ==> slots[k] == slots[..i][k];
  }
}
