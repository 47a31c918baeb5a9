/**
 * What is recorded of one entry and what becomes of it, in terms of its header and of the parameter
 * lines that follow.
 */
module SymbolRecords {
  import opened Options
  import opened SymbolScopes

  /** The kinds of entries that are of no interest anywhere, but for the parameters of functions. */
  const IGNORED: set<Kind> :=
    {UnknownSymbol, FormalParameter, InlinedSubroutine, Label, LexicalBlock, UnspecifiedParameters}

  /** Parameters count inside functions and function types only, variables anywhere but inside functions. */
  predicate Interesting(scope: Kind, k: Kind) {
    (k !in IGNORED && !(k == Variable && scope in {Subprogram, InlinedSubroutine}))
    || (k == FormalParameter && scope in {Subprogram, SubroutineType})
  }

  lemma RelevantMeans(scope: Kind, k: Kind)
    ensures Relevant(scope, k) <==> Interesting(scope, k)
  {
  }

  /** Parts of inlined functions, and variables whose place is computed, are given up. */
  predicate Kept(k: Kind, ps: seq<Param>) {
    AbstractOrigin !in ps && (k == Variable ==> OtherLocation !in ps)
  }

  /** The sibling offset given last. */
  function SiblingOf(ps: seq<Param>): int {
    if ps == [] then -1
    else if ps[|ps| - 1].Sibling? then ps[|ps| - 1].offset
    else SiblingOf(ps[..|ps| - 1])
  }

  /** The name given last. */
  function NameOf(ps: seq<Param>): string {
    if ps == [] then ""
    else if ps[|ps| - 1].Name? then ps[|ps| - 1].name
    else NameOf(ps[..|ps| - 1])
  }

  /** All upper bounds that are not negative, in order. */
  function BoundsOf(ps: seq<Param>): seq<int> {
    if ps == [] then []
    else if ps[|ps| - 1].UpperBound? && ps[|ps| - 1].bound >= 0 then BoundsOf(ps[..|ps| - 1]) + [ps[|ps| - 1].bound]
    else BoundsOf(ps[..|ps| - 1])
  }

  function RecordOf(id: int, k: Kind, ps: seq<Param>): Info {
    Info(true, k, id, SiblingOf(ps), NameOf(ps), AbsoluteLocation in ps, BoundsOf(ps), [], [], [])
  }

  /** The record of an entry, or that it is of no interest. */
  lemma {:induction false} ParsedIsRecord(scope: Kind, id: int, k: Kind, ps: seq<Param>)
    ensures Parsed(scope, id, k, ps).relevant <==> Interesting(scope, k) && Kept(k, ps)
    ensures Interesting(scope, k) && Kept(k, ps) ==> Parsed(scope, id, k, ps) == RecordOf(id, k, ps)
    decreases |ps|
  {
    RelevantMeans(scope, k);
    hide Interesting, Relevant, Kept, RecordOf;
    RecordStarts(id, k);
    if ps == [] {
      hide WithParam;
    } else {
      var front, last := ps[..|ps| - 1], ps[|ps| - 1];
      assert ps == front + [last];
      ParsedIsRecord(scope, id, k, front);
      ParsedOneMore(scope, id, k, front, last);
      KeptLonger(k, front, last);
      hide Parsed;
      if Kept(k, front) { RecordGrows(id, k, front, last); }
    }
  }

  lemma RecordStarts(id: int, k: Kind)
    ensures Kept(k, []) && RecordOf(id, k, []) == BLANK.(relevant := true, kind := k, id := id)
  {
  }

  lemma ParsedOneMore(scope: Kind, id: int, k: Kind, ps: seq<Param>, p: Param)
    ensures Parsed(scope, id, k, ps + [p]) == WithParam(Parsed(scope, id, k, ps), k, p)
    ensures !Parsed(scope, id, k, ps).relevant ==> !Parsed(scope, id, k, ps + [p]).relevant
  {
    hide Opened;
    assert (ps + [p])[..|ps|] == ps;
  }

  lemma KeptLonger(k: Kind, ps: seq<Param>, p: Param)
    ensures Kept(k, ps + [p]) ==> Kept(k, ps)
  {
  }

  /** One more line. */
  lemma RecordGrows(id: int, k: Kind, ps: seq<Param>, p: Param)
    requires Kept(k, ps)
    ensures var r := WithParam(RecordOf(id, k, ps), k, p);
            && (r.relevant <==> Kept(k, ps + [p]))
            && (r.relevant ==> r == RecordOf(id, k, ps + [p]))
  {
    assert (ps + [p])[..|ps|] == ps;
  }

  /** Where an entry is given up; the number of its lines if it is not. */
  function GivenUpAt(k: Kind, ps: seq<Param>): (i: nat)
    ensures i <= |ps|
  {
    if ps == [] || ps[0] == AbstractOrigin || (k == Variable && ps[0] == OtherLocation) then 0
    else 1 + GivenUpAt(k, ps[1..])
  }

  /** The sibling offset that is read of an entry: the last one before it is given up, if it is read that far. */
  function SiblingRead(scope: Kind, k: Kind, ps: seq<Param>): int {
    var i := GivenUpAt(k, ps);
    if !Interesting(scope, k) || (i < |ps| && ps[i] == OtherLocation) then -1 else SiblingOf(ps[..i])
  }

  lemma {:induction false} GivenUpMeans(k: Kind, ps: seq<Param>)
    ensures GivenUpAt(k, ps) == |ps| <==> Kept(k, ps)
    ensures forall j :: 0 <= j < GivenUpAt(k, ps) ==>
              ps[j] != AbstractOrigin && !(k == Variable && ps[j] == OtherLocation)
    ensures GivenUpAt(k, ps) < |ps| && ps[GivenUpAt(k, ps)] != AbstractOrigin ==>
              k == Variable && ps[GivenUpAt(k, ps)] == OtherLocation
  {
    if ps != [] { GivenUpMeans(k, ps[1..]); }
  }

  lemma {:induction false} NothingMore(info: Info, k: Kind, ps: seq<Param>, i: nat)
    requires i <= |ps| && !WithParams(info, k, ps[..i]).relevant
    ensures WithParams(info, k, ps) == WithParams(info, k, ps[..i])
    decreases |ps|
  {
    if i < |ps| {
      assert ps[..|ps| - 1][..i] == ps[..i];
      NothingMore(info, k, ps[..|ps| - 1], i);
    } else {
      assert ps[..i] == ps;
    }
  }

  lemma KeptUntil(k: Kind, ps: seq<Param>, i: nat)
    requires i <= GivenUpAt(k, ps)
    ensures i <= |ps| && Kept(k, ps[..i])
  {
    GivenUpMeans(k, ps);
  }

  lemma GivenUp(scope: Kind, id: int, k: Kind, ps: seq<Param>, i: nat)
    requires i == GivenUpAt(k, ps) < |ps| && Interesting(scope, k)
    ensures Parsed(scope, id, k, ps) ==
            if ps[i] == OtherLocation then BLANK else RecordOf(id, k, ps[..i]).(relevant := false)
  {
    hide Interesting, Relevant, RecordOf;
    KeptUntil(k, ps, i);
    GivenUpMeans(k, ps);
    ParsedIsRecord(scope, id, k, ps[..i]);
    assert ps[..i + 1][..i] == ps[..i];
    assert RecordOf(id, k, ps[..i]).relevant by { RecordCounts(id, k, ps[..i]); }
    NothingMore(Opened(scope, id, k), k, ps, i + 1);
  }

  lemma RecordCounts(id: int, k: Kind, ps: seq<Param>)
    ensures RecordOf(id, k, ps).relevant && RecordOf(id, k, ps).kind == k
    ensures RecordOf(id, k, ps).sibling == SiblingOf(ps)
  {
  }

  /** The scope an entry is, if it opens one: its kind and sibling offset. */
  lemma ParsedScope(scope: Kind, id: int, k: Kind, ps: seq<Param>)
    ensures Parsed(scope, id, k, ps).sibling == SiblingRead(scope, k, ps)
    ensures SiblingRead(scope, k, ps) > 0 ==> Parsed(scope, id, k, ps).kind == k
  {
    hide Interesting, Relevant, Parsed, RecordOf;
    var i := GivenUpAt(k, ps);
    GivenUpMeans(k, ps);
    ParsedIsRecord(scope, id, k, ps);
    RecordCounts(id, k, ps[..i]);
    if !Interesting(scope, k) {
      NeverOpened(scope, id, k, ps);
    } else if i < |ps| {
      GivenUp(scope, id, k, ps, i);
    } else {
      assert ps[..i] == ps;
    }
  }

  lemma NeverOpened(scope: Kind, id: int, k: Kind, ps: seq<Param>)
    requires !Interesting(scope, k)
    ensures Parsed(scope, id, k, ps) == BLANK
  {
    RelevantMeans(scope, k);
    hide Interesting, Relevant;
    assert WithParams(Opened(scope, id, k), k, ps[..0]) == BLANK;
    NothingMore(Opened(scope, id, k), k, ps, 0);
  }

  /** An entry becomes a symbol unless it is a part of another one, a nameless function, or a variable of no place. */
  predicate IsHandedOver(k: Kind, ps: seq<Param>) {
    match k
    case SubrangeType => false
    case Enumerator => false
    case Member => false
    case FormalParameter => false
    case Subprogram => NameOf(ps) != ""
    case Variable => AbsoluteLocation in ps
    case _ => true
  }

  /** The symbol does not have the name of a const or volatile type. */
  function SymbolOf(id: int, k: Kind, ps: seq<Param>): Info {
    if k in {ConstType, VolatileType} then RecordOf(id, k, ps).(name := "") else RecordOf(id, k, ps)
  }

  /** What reaches the factory of an entry, in any scope. */
  lemma EntryBecomes(scope: Kind, id: int, k: Kind, ps: seq<Param>)
    ensures Symbols(Parsed(scope, id, k, ps)) ==
            if Interesting(scope, k) && Kept(k, ps) && IsHandedOver(k, ps) then [SymbolOf(id, k, ps)] else []
  {
    ParsedIsRecord(scope, id, k, ps);
    hide Parsed;
  }

  /** A part of another entry is handed to it, if it counts at all. */
  lemma EntryIsAttached(scope: Kind, id: int, k: Kind, ps: seq<Param>)
    ensures NeedsParent(Parsed(scope, id, k, ps)) <==>
              && Interesting(scope, k) && Kept(k, ps)
              && k in {SubrangeType, Enumerator, Member, FormalParameter}
  {
    ParsedIsRecord(scope, id, k, ps);
    hide Parsed;
  }

  // ---- Entries of a listing ----

  /** The entry counts where it appears. */
  predicate Counts(scope: Kind, d: Die) { Interesting(scope, d.kind) && Kept(d.kind, d.params) }

  /** It is open while its children are read. */
  predicate IsOpen(scope: Kind, d: Die) { d.children != [] && SiblingRead(scope, d.kind, d.params) > 0 }

  predicate IsSymbol(scope: Kind, d: Die) { Counts(scope, d) && IsHandedOver(d.kind, d.params) }

  predicate IsPart(scope: Kind, d: Die) {
    Counts(scope, d) && d.kind in {SubrangeType, Enumerator, Member, FormalParameter}
  }

  /** The scope of an entry's children. */
  function Inside(scope: Kind, d: Die): Kind { if IsOpen(scope, d) then d.kind else scope }

  lemma RecordFacts(scope: Kind, d: Die)
    ensures var info := Parsed(scope, d.id, d.kind, d.params);
            && (Tracked(info, d) <==> IsOpen(scope, d))
            && (IsOpen(scope, d) ==> info.kind == d.kind)
            && Ids(Symbols(info)) == (if IsSymbol(scope, d) then [d.id] else [])
            && (NeedsParent(info) <==> IsPart(scope, d))
            && (info.relevant <==> Counts(scope, d))
            && (info.relevant ==> info.kind == d.kind && info.id == d.id && info.bounds == BoundsOf(d.params))
  {
    ParsedIsRecord(scope, d.id, d.kind, d.params);
    ParsedScope(scope, d.id, d.kind, d.params);
    EntryBecomes(scope, d.id, d.kind, d.params);
    EntryIsAttached(scope, d.id, d.kind, d.params);
    hide Parsed, Symbols, NeedsParent;
  }

  /** What a listing of one entry makes the factory receive. */
  function Received(id: int, k: Kind, ps: seq<Param>): seq<Info> {
    Visit(Scope(None, [], false), [Die(id, k, ps, [])]).out
  }

  lemma OneEntry(id: int, k: Kind, ps: seq<Param>)
    ensures Received(id, k, ps) ==
            if k !in IGNORED && Kept(k, ps) && IsHandedOver(k, ps) then [SymbolOf(id, k, ps)] else []
  {
    hide Parsed, Symbols, NeedsParent;
    var start, d := Scope(None, [], false), Die(id, k, ps, []);
    EntryBecomes(UnknownSymbol, id, k, ps);
    EntryIsAttached(UnknownSymbol, id, k, ps);
    assert [d][1..] == [];
    assert AfterDie(start, d) == Deliver(start, Parsed(UnknownSymbol, id, k, ps));
    assert Visit(start, [d]) == AfterDie(start, d);
  }

  /** A variable is handed over exactly if it has an absolute location, no other, and is not part of inlined code. */
  lemma VariableIsHandedOver(id: int, ps: seq<Param>)
    ensures |Received(id, Variable, ps)| ==
            if AbsoluteLocation in ps && OtherLocation !in ps && AbstractOrigin !in ps then 1 else 0
  {
    hide Received;
    OneEntry(id, Variable, ps);
  }

  /** A function is handed over, with its name, exactly if it has one and is not part of inlined code. */
  lemma FunctionIsHandedOver(id: int, ps: seq<Param>, i: nat)
    requires i < |ps| && ps[i].Name? && forall j :: i < j < |ps| ==> !ps[j].Name?
    ensures if ps[i].name != "" && AbstractOrigin !in ps
            then |Received(id, Subprogram, ps)| == 1 && Received(id, Subprogram, ps)[0].name == ps[i].name
            else Received(id, Subprogram, ps) == []
  {
    hide Received;
    OneEntry(id, Subprogram, ps);
    LastName(ps, i);
  }

  lemma NamelessFunctionIsIgnored(id: int, ps: seq<Param>)
    requires forall j :: 0 <= j < |ps| ==> !ps[j].Name?
    ensures Received(id, Subprogram, ps) == []
  {
    hide Received;
    OneEntry(id, Subprogram, ps);
    NoName(ps);
  }

  lemma {:induction false} LastName(ps: seq<Param>, i: nat)
    requires i < |ps| && ps[i].Name? && forall j :: i < j < |ps| ==> !ps[j].Name?
    ensures NameOf(ps) == ps[i].name
    decreases |ps|
  {
    if i < |ps| - 1 { LastName(ps[..|ps| - 1], i); }
  }

  lemma {:induction false} NoName(ps: seq<Param>)
    requires forall j :: 0 <= j < |ps| ==> !ps[j].Name?
    ensures NameOf(ps) == ""
  {
    if ps != [] { NoName(ps[..|ps| - 1]); }
  }

  /** A const or volatile type is handed over without a name, any other named type with the name given last. */
  lemma QualifierLosesName(id: int, k: Kind, ps: seq<Param>)
    requires k in {ConstType, VolatileType} && AbstractOrigin !in ps
    ensures |Received(id, k, ps)| == 1 && Received(id, k, ps)[0].name == "" && Received(id, k, ps)[0].id == id
  {
    hide Received;
    OneEntry(id, k, ps);
  }

  lemma TypeKeepsName(id: int, k: Kind, ps: seq<Param>, i: nat)
    requires k in {ArrayType, BaseType, CompileUnit, EnumerationType, PointerType, StructureType, SubroutineType,
                   Typedef, UnionType}
    requires AbstractOrigin !in ps
    requires i < |ps| && ps[i].Name? && forall j :: i < j < |ps| ==> !ps[j].Name?
    ensures |Received(id, k, ps)| == 1 && Received(id, k, ps)[0].name == ps[i].name && Received(id, k, ps)[0].id == id
  {
    hide Received;
    OneEntry(id, k, ps);
    LastName(ps, i);
  }
}
