/**
 * The scope machine of the symbol parser. A listing gives the headers of a tree of
 * debugging entries in pre-order; the machine sees one header at a time and rebuilds
 * the tree with a stack, using only the sibling offsets some entries carry.
 */
module SymbolScopes {
  import opened Options

  datatype Kind =
    | UnknownSymbol | ArrayType | BaseType | CompileUnit | ConstType | EnumerationType | Enumerator
    | FormalParameter | InlinedSubroutine | Label | LexicalBlock | Member | PointerType | StructureType
    | Subprogram | SubrangeType | SubroutineType | Typedef | UnionType | UnspecifiedParameters | Variable
    | VolatileType

  predicate RelevantHeader(k: Kind) {
    match k
    case UnknownSymbol | FormalParameter | InlinedSubroutine | Label | LexicalBlock | UnspecifiedParameters => false
    case _ => true
  }

  /** Entries that are merged into their parent instead of becoming symbols. */
  predicate SubHeader(k: Kind) {
    k == SubrangeType || k == Enumerator || k == Member || k == FormalParameter
  }

  /** What is known about an entry; `Blank` is the cleared record. */
  datatype Info = Info(
    relevant: bool, kind: Kind, id: int, sibling: int, name: string, hasLocation: bool,
    bounds: seq<int>, enumValues: seq<int>, members: seq<int>, params: seq<int>)

  const BLANK := Info(false, UnknownSymbol, 0, -1, "", false, [], [], [], [])

  datatype Param =
    | Sibling(offset: int)
    | Name(name: string)
    | AbsoluteLocation
    | OtherLocation
    | AbstractOrigin
    | UpperBound(bound: int)
    | OtherParam

  /** Whether a header matters depends on the scope it appears in. */
  predicate Relevant(scope: Kind, k: Kind) {
    match scope
    case Subprogram => k != Variable && (RelevantHeader(k) || k == FormalParameter)
    case InlinedSubroutine => k != Variable && RelevantHeader(k)
    case SubroutineType => RelevantHeader(k) || k == FormalParameter
    case _ => RelevantHeader(k)
  }

  /** A blank record after a header in the given scope. */
  function Opened(scope: Kind, id: int, k: Kind): Info {
    if Relevant(scope, k) then BLANK.(relevant := true, kind := k, id := id) else BLANK
  }

  function WithParam(info: Info, header: Kind, p: Param): Info {
    if !info.relevant then info
    else
      match p
      case Sibling(v) => info.(sibling := v)
      case Name(s) => info.(name := s)
      case AbsoluteLocation => info.(hasLocation := true)
      case OtherLocation => if header == Variable then BLANK else info
      case AbstractOrigin => info.(relevant := false)
      case UpperBound(b) => if b >= 0 then info.(bounds := info.bounds + [b]) else info
      case OtherParam => info
  }

  function WithParams(info: Info, header: Kind, ps: seq<Param>): Info
    decreases |ps|
  {
    if ps == [] then info
    else WithParam(WithParams(info, header, ps[..|ps| - 1]), header, ps[|ps| - 1])
  }

  // ---- The machine ----

  /**
   * `infos` is the stack, its top the entry being parsed; `out` what the factory has
   * received; `failed` whether the assertion that a sub-entry has a parent was violated.
   */
  datatype State = State(infos: seq<Info>, out: seq<Info>, failed: bool)

  predicate NeedsParent(info: Info) { info.relevant && SubHeader(info.kind) }

  function Attach(parent: Info, info: Info): Info {
    match info.kind
    case SubrangeType => parent.(bounds := parent.bounds + info.bounds)
    case Enumerator => parent.(enumValues := parent.enumValues + [info.id])
    case Member => parent.(members := parent.members + [info.id])
    case FormalParameter => parent.(params := parent.params + [info.id])
    case _ => parent
  }

  /** The symbols that a finished entry becomes: none or itself. */
  function Symbols(info: Info): seq<Info> {
    if !info.relevant || info.kind == UnknownSymbol || SubHeader(info.kind) then []
    else if info.kind == Subprogram && info.name == "" then []
    else if info.kind == Variable && !info.hasLocation then []
    else if info.kind == ConstType || info.kind == VolatileType then [info.(name := "")]
    else [info]
  }

  /** Hands over the top of the stack, to its parent or to the factory. */
  function HandOver(s: State): (t: State)
    requires s.infos != []
    ensures |t.infos| == |s.infos|
  {
    var n := |s.infos|;
    var info := s.infos[n - 1];
    if NeedsParent(info) then
      if n == 1 then s.(failed := true)
      else s.(infos := s.infos[n - 2 := Attach(s.infos[n - 2], info)])
    else s.(out := s.out + Symbols(info))
  }

  /** The loop that closes every scope ending at `nextId`. */
  function Close(s: State, nextId: int): (t: State)
    requires s.infos != []
    ensures t.infos != []
    decreases |s.infos|
  {
    var h := HandOver(s);
    var n := |h.infos|;
    if n == 1 || h.infos[n - 2].sibling > nextId then h.(infos := h.infos[n - 1 := BLANK])
    else Close(h.(infos := h.infos[..n - 1]), nextId)
  }

  /** `finishLastSymbol`: a header with id `nextId` has been seen. */
  function Finish(s: State, nextId: int): (t: State)
    requires s.infos != []
    ensures t.infos != []
  {
    var info := s.infos[|s.infos| - 1];
    if info.sibling > 0 && info.sibling > nextId then s.(infos := s.infos + [BLANK])
    else Close(s, nextId)
  }

  function Rest(infos: seq<Info>): seq<Info>
    requires infos != []
  {
    infos[..|infos| - 1]
  }

  function ScopeKind(rest: seq<Info>): Kind {
    if rest == [] then UnknownSymbol else rest[|rest| - 1].kind
  }

  /** The record parsed for an entry whose parent on the stack is the top of `rest`. */
  function Parsed(scope: Kind, id: int, k: Kind, ps: seq<Param>): Info {
    WithParams(Opened(scope, id, k), k, ps)
  }

  /** A header and the parameters that follow it. */
  function Enter(s: State, id: int, k: Kind, ps: seq<Param>): (t: State)
    requires s.infos != []
    ensures t.infos != []
  {
    var f := Finish(s, id);
    var rest := Rest(f.infos);
    f.(infos := rest + [Parsed(ScopeKind(rest), id, k, ps)])
  }

  // ---- Listings as trees ----

  datatype Die = Die(id: int, kind: Kind, params: seq<Param>, children: seq<Die>)

  /** All ids in the listing are below `v`. */
  ghost predicate IdsBelow(ds: seq<Die>, v: int) {
    forall d :: d in ds ==> d.id < v && IdsBelow(d.children, v)
  }

  function NextId(ds: seq<Die>, end: int): int {
    if ds == [] then end else ds[0].id
  }

  /**
   * Sibling offsets, where present, lie behind all of the entry's descendants and not
   * beyond the next header, whose id is `next`; a missing offset makes no promise.
   */
  ghost predicate WellNested(d: Die, next: int) {
    && (forall i :: 0 <= i < |d.params| && d.params[i].Sibling? ==>
          0 < d.params[i].offset <= next && IdsBelow(d.children, d.params[i].offset))
    && AllWellNested(d.children, next)
  }

  ghost predicate AllWellNested(ds: seq<Die>, end: int) {
    ds != [] ==> WellNested(ds[0], NextId(ds[1..], end)) && AllWellNested(ds[1..], end)
  }

  /** The machine over a whole listing. */
  function Feed(s: State, ds: seq<Die>): (t: State)
    requires s.infos != []
    ensures t.infos != []
    decreases ds
  {
    if ds == [] then s
    else Feed(Feed(Enter(s, ds[0].id, ds[0].kind, ds[0].params), ds[0].children), ds[1..])
  }

  // ---- The meaning of a listing ----

  /** The nearest open entry, and everything handed over so far. */
  datatype Scope = Scope(host: Option<Info>, out: seq<Info>, failed: bool)

  function HostKind(sc: Scope): Kind {
    if sc.host.None? then UnknownSymbol else sc.host.value.kind
  }

  function Deliver(sc: Scope, info: Info): (r: Scope)
    ensures r.host.Some? <==> sc.host.Some?
    ensures sc.host.Some? ==> SameEntry(sc.host.value, r.host.value)
  {
    if NeedsParent(info) then
      if sc.host.None? then sc.(failed := true)
      else sc.(host := Some(Attach(sc.host.value, info)))
    else sc.(out := sc.out + Symbols(info))
  }

  /** An entry is tracked if it has children and a sibling offset was parsed for it. */
  predicate Tracked(info: Info, d: Die) {
    d.children != [] && info.sibling > 0
  }

  predicate SameEntry(a: Info, b: Info) {
    && a.relevant == b.relevant && a.kind == b.kind && a.id == b.id && a.sibling == b.sibling
    && a.name == b.name && a.hasLocation == b.hasLocation
  }

  /**
   * Post-order over tracked entries: their descendants first, attached to them where
   * needed, then the entry itself. The descendants of an untracked entry follow it
   * and belong to its own host.
   */
  function Visit(sc: Scope, ds: seq<Die>): (r: Scope)
    ensures r.host.Some? <==> sc.host.Some?
    ensures sc.host.Some? ==> SameEntry(sc.host.value, r.host.value)
    decreases ds
  {
    if ds == [] then sc
    else
      Visit(AfterDie(sc, ds[0]), ds[1..])
  }

  function AfterDie(sc: Scope, d: Die): (r: Scope)
    ensures r.host.Some? <==> sc.host.Some?
    ensures sc.host.Some? ==> SameEntry(sc.host.value, r.host.value)
    decreases d
  {
    hide Parsed, Deliver, SameEntry;
    var info := Parsed(HostKind(sc), d.id, d.kind, d.params);
    if Tracked(info, d) then
      var inner := Visit(Scope(Some(info), sc.out, sc.failed), d.children);
      Deliver(Scope(sc.host, inner.out, inner.failed), inner.host.value)
    else
      Visit(Deliver(sc, info), d.children)
  }

  // ---- The machine computes the meaning ----

  function ScopeOf(s: State): Scope {
    Scope(if s.infos == [] then None else Some(s.infos[|s.infos| - 1]), s.out, s.failed)
  }

  /** The stack `rest` with its top replaced by what a visit made of it. */
  function Back(rest: seq<Info>, sc: Scope): State
    requires sc.host.Some? <==> rest != []
  {
    State(if rest == [] then [] else rest[|rest| - 1 := sc.host.value], sc.out, sc.failed)
  }

  /** The state after everything above `s` is finished and a header `nextId` arrives. */
  function Settle(s: State, nextId: int): State {
    if s.infos == [] || s.infos[|s.infos| - 1].sibling > nextId then s.(infos := s.infos + [BLANK])
    else Close(s, nextId)
  }

  ghost predicate OpenBeyond(rest: seq<Info>, ds: seq<Die>) {
    forall i :: 0 <= i < |rest| ==> IdsBelow(ds, rest[i].sibling)
  }

  function Ids(infos: seq<Info>): seq<int> {
    seq(|infos|, i requires 0 <= i < |infos| => infos[i].id)
  }

  /**
   * At every header of the listing the stack below the top is the chain of open tracked
   * ancestors, and each of them reaches beyond that header.
   */
  ghost predicate StackIsChain(s: State, ds: seq<Die>, chain: seq<int>)
    requires s.infos != []
    decreases ds
  {
    ds != [] ==>
      var d := ds[0];
      var rest := Rest(Finish(s, d.id).infos);
      var e := Enter(s, d.id, d.kind, d.params);
      && Ids(rest) == chain
      && (forall i :: 0 <= i < |rest| ==> rest[i].sibling > d.id)
      && StackIsChain(e, d.children,
           if Tracked(e.infos[|e.infos| - 1], d) then chain + [d.id] else chain)
      && StackIsChain(Feed(e, d.children), ds[1..], chain)
  }

  // ---- The parser thread ----

  /** The thread's stack, its current header id and what it has given to the factory. */
  class WorkerThread {
    var infos: seq<Info>
    var nextId: int
    var hdrSym: Kind
    var symbols: seq<Info>

    ghost predicate Valid()
      reads this
    {
      infos != []
    }

    function Machine(): State
      reads this
    {
      State(infos, symbols, false)
    }

    constructor ()
      ensures Valid() && Machine() == State([BLANK], [], false)
    {
      infos, nextId, hdrSym, symbols := [BLANK], 0, UnknownSymbol, [];
    }

    /** Merges the top of the stack into its parent or gives it to the factory. */
    method HandOverTop()
      requires Valid() && !HandOver(Machine()).failed
      modifies this`infos, this`symbols
      ensures Valid() && Machine() == HandOver(old(Machine()))
    {
      hide Attach, Symbols;
      var info := infos[|infos| - 1];
      if info.relevant && info.kind != UnknownSymbol && SubHeader(info.kind) {
        // The parser's assertion that there is a parent.
        assert |infos| > 1;
        infos := infos[|infos| - 2 := Attach(infos[|infos| - 2], info)];
      } else {
        symbols := symbols + Symbols(info);
      }
    }

    /** Closes the last entry, or opens a scope for its children, before the header `nextId`. */
    method FinishLastSymbol()
      requires Valid() && nextId >= 0 && !Finish(Machine(), nextId).failed
      modifies this`infos, this`symbols
      ensures Valid() && Machine() == Finish(old(Machine()), nextId)
    {
      hide HandOver;
      var info := infos[|infos| - 1];
      if info.sibling > 0 && info.sibling > nextId {
        infos := infos + [BLANK];
        return;
      }
      ghost var result := Finish(Machine(), nextId);
      while infos[|infos| - 1].sibling <= nextId
        invariant Valid() && infos[|infos| - 1].sibling <= nextId
        invariant Close(Machine(), nextId) == result
        decreases |infos|
      {
        CloseFails(Machine(), nextId);
        HandOverTop();
        if |infos| == 1 || infos[|infos| - 2].sibling > nextId {
          infos := infos[|infos| - 1 := BLANK];
          return;
        }
        infos := infos[..|infos| - 1];
      }
    }

    /** A header line followed by the parameter lines of its entry. */
    method ParseEntry(id: int, k: Kind, ps: seq<Param>)
      requires Valid() && id >= 0 && !Finish(Machine(), id).failed
      modifies this
      ensures Valid() && Machine() == Enter(old(Machine()), id, k, ps)
    {
      nextId, hdrSym := id, k;
      FinishLastSymbol();
      var rest := Rest(infos);
      var info := Opened(ScopeKind(rest), id, k);
      ghost var initial := info;
      var i := 0;
      while i < |ps|
        invariant 0 <= i <= |ps| && info == WithParams(initial, k, ps[..i])
      {
        assert ps[..i + 1][..i] == ps[..i];
        info := WithParam(info, hdrSym, ps[i]);
        i := i + 1;
      }
      assert ps[..|ps|] == ps;
      infos := rest + [info];
    }
  }

  /** A failed assertion is never forgotten by the closing loop. */
  lemma FailureStays(s: State, nextId: int)
    requires s.infos != [] && s.failed
    ensures Close(s, nextId).failed
    decreases |s.infos|
  {
    var h := HandOver(s);
    var n := |h.infos|;
    if !(n == 1 || h.infos[n - 2].sibling > nextId) {
      FailureStays(h.(infos := h.infos[..n - 1]), nextId);
    }
  }

  lemma CloseFails(s: State, nextId: int)
    requires s.infos != [] && !Close(s, nextId).failed
    ensures !HandOver(s).failed
  {
    var h := HandOver(s);
    var n := |h.infos|;
    if h.failed && !(n == 1 || h.infos[n - 2].sibling > nextId) {
      FailureStays(h.(infos := h.infos[..n - 1]), nextId);
    }
  }
}
