/**
 * The worker threads that parse files: each claims the next file under the files lock,
 * parses it without that lock, accounts for it under the lock again and, in the symbol
 * parser, cleans up under the factory lock.
 */
module WorkerThreads {
  import opened Options

  /** Where a worker is; a file is the index it claimed last. */
  datatype Pc =
    | Start                     // about to take the files lock for the first time
    | StartFactory              // holds files, about to take the factory lock
    | StartBoth                 // holds both, about to release the factory lock
    | Head                      // holds files, about to test the loop condition
    | Parsing(file: nat)        // holds nothing
    | AddingSymbol(file: nat)   // inside the parser, holds factory
    | Finishing(file: nat)      // parsed, about to take files
    | Accounting(file: nat)     // holds files, about to add the file's size
    | Cleaning(file: nat)       // about to take factory
    | CleaningLocked(file: nat) // holds factory
    | Again                     // about to take files
    | Done                      // has left the loop and released its locks

  /** A claimed file is being worked on or accounted for, in either case by one worker. */
  datatype Claim = InProgress(worker: nat) | Finished(worker: nat)

  /** The symbol parser uses the factory lock, the source parser only the files lock. */
  datatype Config = Config(sizes: seq<nat>, workers: nat, usesFactory: bool)

  /**
   * `claims` has one entry per index below `_filesIndex`; `parses` counts how often each
   * of them was parsed. `stopped` records that some worker was told to stop.
   */
  datatype State = State(
    pcs: seq<Pc>,
    files: Option<nat>,
    factory: Option<nat>,
    claims: seq<Claim>,
    bytesRead: nat,
    parses: seq<nat>,
    stopped: bool)

  /** `Stop` leaves the loop early, `Lock` lets a parsing worker add a symbol, `Go` is anything else. */
  datatype Action = Go | Stop | Lock

  predicate Enabled(c: Config, s: State, w: nat, a: Action) {
    w < |s.pcs| && |s.pcs| == c.workers &&
    match s.pcs[w]
    case Start | Again => a == Go && s.files.None?
    case StartFactory => a == Go && s.factory.None?
    case StartBoth => a == Go
    case Head => a == Go || a == Stop
    case Parsing(_) => a == Go || (a == Lock && c.usesFactory && s.factory.None?)
    case AddingSymbol(_) => a == Go
    case Finishing(_) => a == Go && s.files.None?
    case Accounting(_) => a == Go
    case Cleaning(_) => a == Go && s.factory.None?
    case CleaningLocked(_) => a == Go
    case Done => false
  }

  function SizeOf(sizes: seq<nat>, i: nat): nat { if i < |sizes| then sizes[i] else 0 }

  function CountParse(parses: seq<nat>, i: nat): seq<nat> {
    if i < |parses| then parses[i := parses[i] + 1] else parses
  }

  function Account(claims: seq<Claim>, i: nat, w: nat): seq<Claim> {
    if i < |claims| then claims[i := Finished(w)] else claims
  }

  function Next(c: Config, s: State, w: nat, a: Action): (t: State)
    requires Enabled(c, s, w, a)
    ensures |t.pcs| == |s.pcs| && (s.stopped ==> t.stopped)
    ensures |t.claims| == |s.claims| || (|s.claims| < |c.sizes| && |t.claims| == |s.claims| + 1)
    ensures forall v :: 0 <= v < |s.pcs| && v != w ==> t.pcs[v] == s.pcs[v]
  {
    match s.pcs[w]
    case Start =>
      s.(files := Some(w), pcs := s.pcs[w := if c.usesFactory then StartFactory else Head])
    case StartFactory => s.(factory := Some(w), pcs := s.pcs[w := StartBoth])
    case StartBoth => s.(factory := None, pcs := s.pcs[w := Head])
    case Head =>
      if a == Go && |s.claims| < |c.sizes| then
        s.(files := None, claims := s.claims + [InProgress(w)], parses := s.parses + [0],
           pcs := s.pcs[w := Parsing(|s.claims|)])
      else
        s.(files := None, pcs := s.pcs[w := Done], stopped := s.stopped || a == Stop)
    case Parsing(i) =>
      if a == Lock then s.(factory := Some(w), pcs := s.pcs[w := AddingSymbol(i)])
      else
        s.(parses := CountParse(s.parses, i), pcs := s.pcs[w := Finishing(i)])
    case AddingSymbol(i) => s.(factory := None, pcs := s.pcs[w := Parsing(i)])
    case Finishing(i) => s.(files := Some(w), pcs := s.pcs[w := Accounting(i)])
    case Accounting(i) =>
      s.(bytesRead := s.bytesRead + SizeOf(c.sizes, i), claims := Account(s.claims, i, w),
         files := if c.usesFactory then None else s.files,
         pcs := s.pcs[w := if c.usesFactory then Cleaning(i) else Head])
    case Cleaning(i) => s.(factory := Some(w), pcs := s.pcs[w := CleaningLocked(i)])
    case CleaningLocked(_) => s.(factory := None, pcs := s.pcs[w := Again])
    case Again => s.(files := Some(w), pcs := s.pcs[w := Head])
  }

  predicate Initial(c: Config, s: State) {
    s == State(seq(c.workers, _ => Start), None, None, [], 0, [], false)
  }

  // ---- Invariants ----

  predicate HoldsFiles(p: Pc) {
    p.StartFactory? || p.StartBoth? || p.Head? || p.Accounting?
  }

  predicate HoldsFactory(p: Pc) {
    p.StartBoth? || p.AddingSymbol? || p.CleaningLocked?
  }

  predicate WorksOn(p: Pc, i: nat) {
    match p
    case Parsing(f) => f == i
    case AddingSymbol(f) => f == i
    case Finishing(f) => f == i
    case Accounting(f) => f == i
    case _ => false
  }

  predicate ParsedIt(p: Pc) { p.Finishing? || p.Accounting? }

  function FinishedBytes(sizes: seq<nat>, claims: seq<Claim>): nat
    requires |claims| <= |sizes|
  {
    if claims == [] then 0
    else
      var n := |claims| - 1;
      FinishedBytes(sizes, claims[..n]) + if claims[n].Finished? then sizes[n] else 0
  }

  /** A lock is held by the worker recorded as its owner and by no other. */
  ghost predicate LocksInv(s: State) {
    && (forall w: nat :: w < |s.pcs| ==> (HoldsFiles(s.pcs[w]) <==> s.files == Some(w)))
    && (forall w: nat :: w < |s.pcs| ==> (HoldsFactory(s.pcs[w]) <==> s.factory == Some(w)))
    && (s.files.Some? ==> s.files.value < |s.pcs|)
    && (s.factory.Some? ==> s.factory.value < |s.pcs|)
  }

  /** Every claimed file in progress is worked on by exactly the worker that claimed it. */
  ghost predicate ClaimsInv(c: Config, s: State) {
    && |s.claims| <= |c.sizes|
    && |s.parses| == |s.claims|
    && (forall i: nat, w: nat :: i < |s.claims| && w < |s.pcs| ==>
          (WorksOn(s.pcs[w], i) <==> s.claims[i] == InProgress(w)))
    && (forall i: nat, w: nat :: w < |s.pcs| && WorksOn(s.pcs[w], i) ==> i < |s.claims|)
    && (forall i: nat :: i < |s.claims| ==> s.claims[i].worker < |s.pcs|)
    && (forall i: nat :: i < |s.claims| ==>
          s.parses[i] == if s.claims[i].Finished? || ParsedIt(s.pcs[s.claims[i].worker]) then 1 else 0)
  }

  ghost predicate DoneInv(c: Config, s: State) {
    (exists w: nat :: w < |s.pcs| && s.pcs[w].Done?) && !s.stopped ==> |s.claims| == |c.sizes|
  }

  ghost predicate PcsInv(c: Config, s: State) {
    && |s.pcs| == c.workers
    && (!c.usesFactory ==> s.factory.None? && forall w: nat :: w < |s.pcs| ==>
          !s.pcs[w].StartFactory? && !s.pcs[w].Cleaning?)
  }

  ghost predicate Inv(c: Config, s: State) {
    && PcsInv(c, s) && LocksInv(s) && ClaimsInv(c, s) && DoneInv(c, s)
    && s.bytesRead == FinishedBytes(c.sizes, s.claims)
  }

  lemma InitialInv(c: Config, s: State)
    requires Initial(c, s)
    ensures Inv(c, s)
  {
  }

  lemma FilesKept(c: Config, s: State, w: nat, a: Action, v: nat)
    requires Inv(c, s) && Enabled(c, s, w, a) && v < |s.pcs|
    ensures HoldsFiles(Next(c, s, w, a).pcs[v]) <==> Next(c, s, w, a).files == Some(v)
  {
    hide ClaimsInv, DoneInv, FinishedBytes, Account, CountParse;
    assert HoldsFiles(s.pcs[v]) <==> s.files == Some(v);
    assert HoldsFiles(s.pcs[w]) <==> s.files == Some(w);
  }

  lemma FactoryKept(c: Config, s: State, w: nat, a: Action, v: nat)
    requires Inv(c, s) && Enabled(c, s, w, a) && v < |s.pcs|
    ensures HoldsFactory(Next(c, s, w, a).pcs[v]) <==> Next(c, s, w, a).factory == Some(v)
  {
    hide ClaimsInv, DoneInv, FinishedBytes, Account, CountParse;
    assert HoldsFactory(s.pcs[v]) <==> s.factory == Some(v);
    assert HoldsFactory(s.pcs[w]) <==> s.factory == Some(w);
  }

  lemma LocksKept(c: Config, s: State, w: nat, a: Action)
    requires Inv(c, s) && Enabled(c, s, w, a)
    ensures LocksInv(Next(c, s, w, a))
  {
    hide ClaimsInv, DoneInv, PcsInv, FinishedBytes, Account, CountParse, HoldsFiles, HoldsFactory;
    var t := Next(c, s, w, a);
    forall v: nat | v < |t.pcs|
      ensures HoldsFiles(t.pcs[v]) <==> t.files == Some(v)
      ensures HoldsFactory(t.pcs[v]) <==> t.factory == Some(v)
    {
      FilesKept(c, s, w, a, v);
      FactoryKept(c, s, w, a, v);
    }
  }

  lemma PcsKept(c: Config, s: State, w: nat, a: Action)
    requires Inv(c, s) && Enabled(c, s, w, a)
    ensures PcsInv(c, Next(c, s, w, a))
  {
    hide ClaimsInv, DoneInv, FinishedBytes, LocksInv;
  }

  /** A step that touches neither claims nor which file the worker is on. */
  ghost predicate SameWork(s: State, t: State, w: nat)
    requires w < |s.pcs|
  {
    && t.claims == s.claims && t.parses == s.parses
    && |t.pcs| == |s.pcs|
    && (forall v: nat :: v < |s.pcs| && v != w ==> t.pcs[v] == s.pcs[v])
    && (forall i: nat :: WorksOn(t.pcs[w], i) <==> WorksOn(s.pcs[w], i))
    && ParsedIt(t.pcs[w]) == ParsedIt(s.pcs[w])
  }

  lemma SameWorkKeepsClaims(c: Config, s: State, t: State, w: nat)
    requires w < |s.pcs| && SameWork(s, t, w) && ClaimsInv(c, s)
    ensures ClaimsInv(c, t)
  {
    forall i: nat, v: nat | i < |t.claims| && v < |t.pcs|
      ensures WorksOn(t.pcs[v], i) <==> t.claims[i] == InProgress(v)
    {
      assert WorksOn(s.pcs[v], i) <==> s.claims[i] == InProgress(v);
    }
    forall i: nat, v: nat | v < |t.pcs| && WorksOn(t.pcs[v], i) ensures i < |t.claims| {
      assert WorksOn(s.pcs[v], i);
    }
  }

  lemma ClaimKeepsClaims(c: Config, s: State, w: nat)
    requires Inv(c, s) && Enabled(c, s, w, Go) && s.pcs[w].Head? && |s.claims| < |c.sizes|
    ensures ClaimsInv(c, Next(c, s, w, Go))
  {
    var t := Next(c, s, w, Go);
    var n := |s.claims|;
    forall i: nat, v: nat | i < |t.claims| && v < |t.pcs|
      ensures WorksOn(t.pcs[v], i) <==> t.claims[i] == InProgress(v)
    {
      if v != w { assert WorksOn(s.pcs[v], i) ==> i < n; }
      if i < n { assert WorksOn(s.pcs[v], i) <==> s.claims[i] == InProgress(v); }
    }
    forall i: nat | i < |t.claims|
      ensures t.parses[i] == if t.claims[i].Finished? || ParsedIt(t.pcs[t.claims[i].worker]) then 1 else 0
    {
      if i < n && s.claims[i].worker == w {
        assert WorksOn(s.pcs[w], i) <==> s.claims[i] == InProgress(w);
      }
    }
  }

  lemma ParseKeepsClaims(c: Config, s: State, w: nat)
    requires Inv(c, s) && Enabled(c, s, w, Go) && s.pcs[w].Parsing?
    ensures ClaimsInv(c, Next(c, s, w, Go))
  {
    var t := Next(c, s, w, Go);
    var f := s.pcs[w].file;
    assert WorksOn(s.pcs[w], f);
    assert s.claims[f] == InProgress(w);
    forall i: nat, v: nat | i < |t.claims| && v < |t.pcs|
      ensures WorksOn(t.pcs[v], i) <==> t.claims[i] == InProgress(v)
    {
      assert WorksOn(s.pcs[v], i) <==> s.claims[i] == InProgress(v);
    }
    forall i: nat | i < |t.claims|
      ensures t.parses[i] == if t.claims[i].Finished? || ParsedIt(t.pcs[t.claims[i].worker]) then 1 else 0
    {
      assert WorksOn(s.pcs[w], i) <==> s.claims[i] == InProgress(w);
    }
  }

  lemma AccountKeepsClaims(c: Config, s: State, w: nat)
    requires Inv(c, s) && Enabled(c, s, w, Go) && s.pcs[w].Accounting?
    ensures ClaimsInv(c, Next(c, s, w, Go))
  {
    var t := Next(c, s, w, Go);
    var f := s.pcs[w].file;
    assert WorksOn(s.pcs[w], f);
    assert s.claims[f] == InProgress(w);
    forall i: nat, v: nat | i < |t.claims| && v < |t.pcs|
      ensures WorksOn(t.pcs[v], i) <==> t.claims[i] == InProgress(v)
    {
      assert WorksOn(s.pcs[v], i) <==> s.claims[i] == InProgress(v);
    }
    forall i: nat | i < |t.claims|
      ensures t.parses[i] == if t.claims[i].Finished? || ParsedIt(t.pcs[t.claims[i].worker]) then 1 else 0
    {
      assert WorksOn(s.pcs[w], i) <==> s.claims[i] == InProgress(w);
    }
  }

  lemma ClaimsKept(c: Config, s: State, w: nat, a: Action)
    requires Inv(c, s) && Enabled(c, s, w, a)
    ensures ClaimsInv(c, Next(c, s, w, a))
  {
    hide ClaimsInv, LocksInv, DoneInv, PcsInv, FinishedBytes;
    match s.pcs[w] {
      case Head =>
        if a == Go && |s.claims| < |c.sizes| {
          ClaimKeepsClaims(c, s, w);
        } else {
          SameWorkKeepsClaims(c, s, Next(c, s, w, a), w);
        }
      case Parsing(_) =>
        if a == Go {
          ParseKeepsClaims(c, s, w);
        } else {
          SameWorkKeepsClaims(c, s, Next(c, s, w, a), w);
        }
      case Accounting(_) =>
        AccountKeepsClaims(c, s, w);
      case Done =>
      case _ =>
        SameWorkKeepsClaims(c, s, Next(c, s, w, a), w);
    }
  }

  lemma DoneKept(c: Config, s: State, w: nat, a: Action)
    requires Inv(c, s) && Enabled(c, s, w, a)
    ensures DoneInv(c, Next(c, s, w, a))
  {
    var t := Next(c, s, w, a);
    if !t.stopped && exists v: nat :: v < |t.pcs| && t.pcs[v].Done? {
      var v: nat :| v < |t.pcs| && t.pcs[v].Done?;
      assert v != w ==> s.pcs[v].Done?;
      assert |s.claims| == |c.sizes|;
    }
  }

  lemma {:induction false} FinishedBytesStep(sizes: seq<nat>, claims: seq<Claim>, i: nat, w: nat)
    requires i < |claims| <= |sizes| && claims[i].InProgress?
    ensures FinishedBytes(sizes, claims[i := Finished(w)]) == FinishedBytes(sizes, claims) + sizes[i]
    decreases |claims|
  {
    var n := |claims| - 1;
    var updated := claims[i := Finished(w)];
    if i == n {
      assert updated[..n] == claims[..n];
    } else {
      assert updated[..n] == claims[..n][i := Finished(w)];
      FinishedBytesStep(sizes, claims[..n], i, w);
    }
  }

  lemma BytesKept(c: Config, s: State, w: nat, a: Action)
    requires Inv(c, s) && Enabled(c, s, w, a)
    ensures |Next(c, s, w, a).claims| <= |c.sizes|
    ensures Next(c, s, w, a).bytesRead == FinishedBytes(c.sizes, Next(c, s, w, a).claims)
  {
    match s.pcs[w] {
      case Head =>
        assert (s.claims + [InProgress(w)])[..|s.claims|] == s.claims;
      case Accounting(i) =>
        assert WorksOn(s.pcs[w], i);
        FinishedBytesStep(c.sizes, s.claims, i, w);
      case _ =>
    }
  }

  /** Every step of every worker, in any order, keeps the invariant. */
  lemma StepInv(c: Config, s: State, w: nat, a: Action)
    requires Inv(c, s) && Enabled(c, s, w, a)
    ensures Inv(c, Next(c, s, w, a))
  {
    hide Next, Enabled;
    LocksKept(c, s, w, a);
    PcsKept(c, s, w, a);
    ClaimsKept(c, s, w, a);
    DoneKept(c, s, w, a);
    BytesKept(c, s, w, a);
  }

  // ---- Whole runs ----

  datatype Turn = Turn(worker: nat, action: Action)

  ghost predicate Runs(c: Config, s: State, schedule: seq<Turn>, t: State)
    decreases |schedule|
  {
    if schedule == [] then s == t
    else
      var turn := schedule[0];
      && Enabled(c, s, turn.worker, turn.action)
      && Runs(c, Next(c, s, turn.worker, turn.action), schedule[1..], t)
  }

  ghost predicate Reachable(c: Config, t: State) {
    exists s, schedule :: Initial(c, s) && Runs(c, s, schedule, t)
  }

  lemma {:induction false} RunInv(c: Config, s: State, schedule: seq<Turn>, t: State)
    requires Inv(c, s) && Runs(c, s, schedule, t)
    ensures Inv(c, t)
    decreases |schedule|
  {
    if schedule != [] {
      StepInv(c, s, schedule[0].worker, schedule[0].action);
      hide Inv, Next;
      RunInv(c, Next(c, s, schedule[0].worker, schedule[0].action), schedule[1..], t);
    }
  }

  lemma ReachableInv(c: Config, t: State)
    requires Reachable(c, t)
    ensures Inv(c, t)
  {
    hide Inv;
    var s, schedule :| Initial(c, s) && Runs(c, s, schedule, t);
    InitialInv(c, s);
    RunInv(c, s, schedule, t);
  }

  /** Under every schedule no two workers are ever on the same file, and every claimed file has one claimant. */
  lemma ClaimsAreExclusive(c: Config, t: State, i: nat, v: nat, w: nat)
    requires Reachable(c, t) && v < |t.pcs| && w < |t.pcs|
    ensures WorksOn(t.pcs[v], i) && WorksOn(t.pcs[w], i) ==> v == w
    ensures WorksOn(t.pcs[w], i) ==> i < |t.claims| && t.claims[i] == InProgress(w)
    ensures |t.claims| <= |c.sizes| && t.bytesRead == FinishedBytes(c.sizes, t.claims)
    ensures |t.parses| == |t.claims|
    ensures i < |t.claims| ==> t.parses[i] <= 1
  {
    ReachableInv(c, t);
    if i < |t.claims| {
      assert WorksOn(t.pcs[v], i) <==> t.claims[i] == InProgress(v);
      assert WorksOn(t.pcs[w], i) <==> t.claims[i] == InProgress(w);
    }
  }

  /** Claims of the earlier state stand in the later one: same claimant, and finished ones stay so. */
  ghost predicate Stand(s: State, t: State) {
    && |s.claims| <= |t.claims|
    && forall i :: 0 <= i < |s.claims| ==>
         t.claims[i].worker == s.claims[i].worker && (s.claims[i].Finished? ==> t.claims[i].Finished?)
  }

  lemma StepKeepsClaims(c: Config, s: State, w: nat, a: Action)
    requires Inv(c, s) && Enabled(c, s, w, a)
    ensures Stand(s, Next(c, s, w, a))
  {
    hide LocksInv, DoneInv, PcsInv, FinishedBytes;
    if s.pcs[w].Accounting? {
      assert WorksOn(s.pcs[w], s.pcs[w].file);
    }
  }

  /** Under every schedule no claim is given back or passes to another worker. */
  lemma {:induction false} ClaimsStand(c: Config, s: State, schedule: seq<Turn>, t: State)
    requires Inv(c, s) && Runs(c, s, schedule, t)
    ensures Stand(s, t)
    decreases |schedule|
  {
    if schedule != [] {
      var next := Next(c, s, schedule[0].worker, schedule[0].action);
      StepInv(c, s, schedule[0].worker, schedule[0].action);
      StepKeepsClaims(c, s, schedule[0].worker, schedule[0].action);
      hide Inv, Next;
      ClaimsStand(c, next, schedule[1..], t);
    }
  }

  /** So a file claimed at some time is worked on by its claimant and nobody else ever after. */
  lemma ClaimIsForever(c: Config, s: State, schedule: seq<Turn>, t: State, i: nat, w: nat)
    requires Reachable(c, s) && Runs(c, s, schedule, t)
    requires i < |s.claims| && w < |t.pcs| && WorksOn(t.pcs[w], i)
    ensures Stand(s, t) && w == s.claims[i].worker && s.claims[i].InProgress?
  {
    ReachableInv(c, s);
    ClaimsStand(c, s, schedule, t);
    RunInv(c, s, schedule, t);
    assert WorksOn(t.pcs[w], i) <==> t.claims[i] == InProgress(w);
  }

  /** As long as one worker has not left, some worker can take a step. */
  lemma NeverDeadlocked(c: Config, t: State, w: nat)
    requires Reachable(c, t) && w < |t.pcs| && !t.pcs[w].Done?
    ensures exists v: nat :: v < |t.pcs| && Enabled(c, t, v, Go)
  {
    ReachableInv(c, t);
    if !Enabled(c, t, w, Go) {
      // The worker waits for a lock, so the lock has an owner.
      var owner := if t.pcs[w].StartFactory? || t.pcs[w].Cleaning? then t.factory.value else t.files.value;
      if !Enabled(c, t, owner, Go) {
        assert t.pcs[owner].StartFactory?;
        assert Enabled(c, t, t.factory.value, Go);
      }
    }
  }

  function TotalBytes(sizes: seq<nat>): nat {
    if sizes == [] then 0 else TotalBytes(sizes[..|sizes| - 1]) + sizes[|sizes| - 1]
  }

  lemma {:induction false} AllFinishedBytes(sizes: seq<nat>, claims: seq<Claim>)
    requires |claims| <= |sizes| && forall i :: 0 <= i < |claims| ==> claims[i].Finished?
    ensures FinishedBytes(sizes, claims) == TotalBytes(sizes[..|claims|])
    decreases |claims|
  {
    if claims != [] {
      var n := |claims| - 1;
      AllFinishedBytes(sizes, claims[..n]);
      assert sizes[..n + 1][..n] == sizes[..n];
    }
  }

  /** When all workers have left and none was told to stop, every file was parsed exactly once. */
  lemma CompletionParsesEverything(c: Config, t: State)
    requires Reachable(c, t) && c.workers > 0 && !t.stopped
    requires forall w :: 0 <= w < |t.pcs| ==> t.pcs[w].Done?
    ensures |t.claims| == |t.parses| == |c.sizes|
    ensures forall i :: 0 <= i < |c.sizes| ==> t.claims[i].Finished? && t.parses[i] == 1
    ensures t.bytesRead == TotalBytes(c.sizes)
  {
    ReachableInv(c, t);
    assert t.pcs[0].Done?;
    forall i: nat | i < |t.claims| ensures t.claims[i].Finished? {
      var w := t.claims[i].worker;
      assert WorksOn(t.pcs[w], i) <==> t.claims[i] == InProgress(w);
    }
    AllFinishedBytes(c.sizes, t.claims);
    assert c.sizes[..|c.sizes|] == c.sizes;
  }
}
