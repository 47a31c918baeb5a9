/**
 * What reading a listing amounts to: the machine hands over what a visit of the tree does, each symbol
 * once, with each part of a symbol at its nearest tracked ancestor.
 */
module SymbolVisits {
  import opened Options
  import opened ScopeSettling
  import opened Sequences
  import opened SymbolRecords
  import opened SymbolScopes

  /**
   * Reading a well-nested listing hands over exactly what the tree means: once the header
   * behind the listing is seen, the stack is back at its bottom and the factory has
   * received the visit's symbols in the visit's order.
   */
  lemma ListingIsVisited(ds: seq<Die>, end: int)
    requires ds != [] && AllWellNested(ds, end)
    ensures var sc := Visit(Scope(None, [], false), ds);
            Finish(Feed(State([BLANK], [], false), ds), end) == State([BLANK], sc.out, sc.failed)
    ensures StackIsChain(State([BLANK], [], false), ds, [])
  {
    hide Finish, Feed, Visit, StackIsChain;
    FinishBlank(ds[0].id);
    assert Ids([]) == [];
    ForestSettles(State([BLANK], [], false), [], [], false, ds, end);
    BottomSettles(Visit(Scope(None, [], false), ds), end);
  }

  lemma FinishBlank(id: int)
    ensures Finish(State([BLANK], [], false), id) == State([] + [BLANK], [], false)
  {
    assert [BLANK][0 := BLANK] == [] + [BLANK];
  }

  lemma BottomSettles(sc: Scope, end: int)
    requires sc.host.None?
    ensures Settle(Back([], sc), end) == State([BLANK], sc.out, sc.failed)
  {
  }

  /** No sub-entry that matters lacks a tracked ancestor; `hosted` says whether the scope is one. */
  predicate AllHosted(scope: Kind, hosted: bool, ds: seq<Die>)
    decreases ds
  {
    ds != [] ==> DieHosted(scope, hosted, ds[0]) && AllHosted(scope, hosted, ds[1..])
  }

  predicate DieHosted(scope: Kind, hosted: bool, d: Die)
    decreases d
  {
    && (IsPart(scope, d) ==> hosted)
    && AllHosted(Inside(scope, d), hosted || IsOpen(scope, d), d.children)
  }

  lemma DeliverFails(sc: Scope, info: Info)
    ensures Deliver(sc, info).failed <==> sc.failed || (NeedsParent(info) && sc.host.None?)
    ensures HostKind(Deliver(sc, info)) == HostKind(sc)
  {
  }

  lemma DieFails(sc: Scope, d: Die)
    ensures AfterDie(sc, d).failed <==> sc.failed || !DieHosted(HostKind(sc), sc.host.Some?, d)
    decreases d, 0
  {
    RecordFacts(HostKind(sc), d);
    hide Parsed, Deliver, AllHosted, Visit, NeedsParent, IsPart, IsOpen, Symbols, Tracked;
    var info := Parsed(HostKind(sc), d.id, d.kind, d.params);
    if Tracked(info, d) {
      var inner := Visit(Scope(Some(info), sc.out, sc.failed), d.children);
      VisitFails(Scope(Some(info), sc.out, sc.failed), d.children);
      SameSymbols(info, inner.host.value);
      DeliverFails(Scope(sc.host, inner.out, inner.failed), inner.host.value);
    } else {
      DeliverFails(sc, info);
      VisitFails(Deliver(sc, info), d.children);
    }
  }

  lemma VisitFails(sc: Scope, ds: seq<Die>)
    ensures Visit(sc, ds).failed <==> sc.failed || !AllHosted(HostKind(sc), sc.host.Some?, ds)
    decreases ds, 1
  {
    hide AfterDie, DieHosted;
    if ds != [] {
      DieFails(sc, ds[0]);
      VisitFails(AfterDie(sc, ds[0]), ds[1..]);
    }
  }

  /**
   * Reading a well-nested listing violates the parser's assertion that a sub-entry has a parent, exactly
   * if a sub-entry that matters has no tracked ancestor.
   */
  lemma ListingFailsIff(ds: seq<Die>, end: int)
    requires ds != [] && AllWellNested(ds, end)
    ensures Finish(Feed(State([BLANK], [], false), ds), end).failed <==> !AllHosted(UnknownSymbol, false, ds)
  {
    hide Finish, Feed, Visit, AllHosted, AllWellNested, StackIsChain;
    ListingIsVisited(ds, end);
    VisitFails(Scope(None, [], false), ds);
  }

  /** The entries that become symbols, in the order of the listing. */
  function SymbolIds(scope: Kind, ds: seq<Die>): seq<int>
    decreases ds
  {
    if ds == [] then []
    else
      OwnId(scope, ds[0]) + SymbolIds(Inside(scope, ds[0]), ds[0].children) + SymbolIds(scope, ds[1..])
  }

  function OwnId(scope: Kind, d: Die): seq<int> {
    if IsSymbol(scope, d) then [d.id] else []
  }

  lemma IdsAppend(a: seq<Info>, b: seq<Info>)
    ensures Ids(a + b) == Ids(a) + Ids(b)
  {
  }

  lemma SameSymbols(a: Info, b: Info)
    requires SameEntry(a, b)
    ensures Ids(Symbols(a)) == Ids(Symbols(b)) && NeedsParent(a) == NeedsParent(b)
  {
  }

  lemma DeliverEmits(sc: Scope, info: Info)
    ensures Ids(Deliver(sc, info).out) == Ids(sc.out) + Ids(Symbols(info))
  {
    IdsAppend(sc.out, Symbols(info));
  }

  /** Every entry that is a symbol reaches the factory exactly once, no other ever does. */
  lemma VisitEmitsOnce(sc: Scope, ds: seq<Die>)
    ensures multiset(Ids(Visit(sc, ds).out)) == multiset(Ids(sc.out)) + multiset(SymbolIds(HostKind(sc), ds))
    decreases ds, 1
  {
    if ds != [] {
      var d := ds[0];
      var scope := HostKind(sc);
      var own, below := OwnId(scope, d), SymbolIds(Inside(scope, d), d.children);
      var more := SymbolIds(scope, ds[1..]);
      DieEmitsOnce(sc, d);
      VisitEmitsOnce(AfterDie(sc, d), ds[1..]);
      assert HostKind(AfterDie(sc, d)) == scope;
      assert SymbolIds(scope, ds) == own + below + more;
      hide SymbolIds, OwnId, Inside, Ids, AfterDie;
      assert multiset(own + below + more) == multiset(own) + multiset(below) + multiset(more);
    }
  }

  lemma DieEmitsOnce(sc: Scope, d: Die)
    ensures var scope := HostKind(sc);
            multiset(Ids(AfterDie(sc, d).out)) ==
            multiset(Ids(sc.out)) + multiset(OwnId(scope, d)) + multiset(SymbolIds(Inside(scope, d), d.children))
    decreases d, 0
  {
    RecordFacts(HostKind(sc), d);
    hide Symbols, Ids, Parsed, Deliver, SymbolIds, IsSymbol, IsOpen, NeedsParent;
    var info := Parsed(HostKind(sc), d.id, d.kind, d.params);
    if Tracked(info, d) {
      var inner := Visit(Scope(Some(info), sc.out, sc.failed), d.children);
      VisitEmitsOnce(Scope(Some(info), sc.out, sc.failed), d.children);
      SameSymbols(info, inner.host.value);
      DeliverEmits(Scope(sc.host, inner.out, inner.failed), inner.host.value);
    } else {
      DeliverEmits(sc, info);
      VisitEmitsOnce(Deliver(sc, info), d.children);
    }
  }

  function Attached(host: Info, want: Kind): seq<int> {
    match want
    case Enumerator => host.enumValues
    case Member => host.members
    case FormalParameter => host.params
    case _ => []
  }

  /** The entries of one sub-kind that have no tracked entry between themselves and the scope. */
  function Nearest(scope: Kind, ds: seq<Die>, want: Kind): seq<int>
    decreases ds
  {
    if ds == [] then [] else NearestOfDie(scope, ds[0], want) + Nearest(scope, ds[1..], want)
  }

  function NearestOfDie(scope: Kind, d: Die, want: Kind): seq<int>
    decreases d
  {
    (if Counts(scope, d) && d.kind == want then [d.id] else [])
      + if IsOpen(scope, d) then [] else Nearest(scope, d.children, want)
  }

  lemma DeliverAttaches(sc: Scope, info: Info, want: Kind)
    requires sc.host.Some? && (want == Enumerator || want == Member || want == FormalParameter)
    ensures Attached(Deliver(sc, info).host.value, want) ==
            Attached(sc.host.value, want) + if info.relevant && info.kind == want then [info.id] else []
  {
    assert Attached(sc.host.value, want) + [] == Attached(sc.host.value, want);
  }

  lemma DieAttachesToNearest(sc: Scope, d: Die, want: Kind)
    requires sc.host.Some? && (want == Enumerator || want == Member || want == FormalParameter)
    ensures Attached(AfterDie(sc, d).host.value, want) ==
              Attached(sc.host.value, want) + NearestOfDie(HostKind(sc), d, want)
    decreases d, 0
  {
    RecordFacts(HostKind(sc), d);
    hide Attached, Deliver, Parsed, Nearest, Visit, Counts, IsOpen, Symbols, NeedsParent;
    var info := Parsed(HostKind(sc), d.id, d.kind, d.params);
    if Tracked(info, d) {
      var inner := Visit(Scope(Some(info), sc.out, sc.failed), d.children);
      DeliverAttaches(Scope(sc.host, inner.out, inner.failed), inner.host.value, want);
    } else {
      DeliverAttaches(sc, info, want);
      VisitAttachesToNearest(Deliver(sc, info), d.children, want);
    }
  }

  /** Each member, parameter or enumerator ends up at its nearest tracked ancestor, in listing order. */
  lemma VisitAttachesToNearest(sc: Scope, ds: seq<Die>, want: Kind)
    requires sc.host.Some? && (want == Enumerator || want == Member || want == FormalParameter)
    ensures Attached(Visit(sc, ds).host.value, want) ==
            Attached(sc.host.value, want) + Nearest(HostKind(sc), ds, want)
    decreases ds, 1
  {
    hide Attached, AfterDie, Parsed, NearestOfDie;
    if ds != [] {
      var scope := HostKind(sc);
      DieAttachesToNearest(sc, ds[0], want);
      VisitAttachesToNearest(AfterDie(sc, ds[0]), ds[1..], want);
      var a, b, c := Attached(sc.host.value, want), NearestOfDie(scope, ds[0], want), Nearest(scope, ds[1..], want);
      assert a + b + c == a + (b + c);
    } else {
      assert Attached(sc.host.value, want) + [] == Attached(sc.host.value, want);
    }
  }

  /** The array bounds that entries without a tracked entry in between contribute to the scope. */
  function BoundsIn(scope: Kind, ds: seq<Die>): seq<int>
    decreases ds
  {
    if ds == [] then [] else BoundsOfDie(scope, ds[0]) + BoundsIn(scope, ds[1..])
  }

  /** A tracked subrange brings along the bounds of the subranges below it. */
  function BoundsOfDie(scope: Kind, d: Die): seq<int>
    decreases d
  {
    if !IsOpen(scope, d) then OwnBounds(scope, d) + BoundsIn(scope, d.children)
    else if IsSubrange(scope, d) then BoundsOf(d.params) + BoundsIn(d.kind, d.children)
    else []
  }

  predicate IsSubrange(scope: Kind, d: Die) { Counts(scope, d) && d.kind == SubrangeType }

  function OwnBounds(scope: Kind, d: Die): seq<int> { if IsSubrange(scope, d) then BoundsOf(d.params) else [] }

  lemma DeliverAddsBounds(sc: Scope, info: Info)
    requires sc.host.Some?
    ensures Deliver(sc, info).host.value.bounds ==
              sc.host.value.bounds + if info.relevant && info.kind == SubrangeType then info.bounds else []
  {
    assert sc.host.value.bounds + [] == sc.host.value.bounds;
  }

  lemma DieAddsBounds(sc: Scope, d: Die)
    requires sc.host.Some?
    ensures AfterDie(sc, d).host.value.bounds == sc.host.value.bounds + BoundsOfDie(HostKind(sc), d)
    decreases d, 0
  {
    RecordFacts(HostKind(sc), d);
    hide Deliver, Parsed, BoundsIn, Visit, Counts, IsOpen, Symbols, NeedsParent;
    var info := Parsed(HostKind(sc), d.id, d.kind, d.params);
    if Tracked(info, d) {
      var inner := Visit(Scope(Some(info), sc.out, sc.failed), d.children);
      VisitAddsBounds(Scope(Some(info), sc.out, sc.failed), d.children);
      DeliverAddsBounds(Scope(sc.host, inner.out, inner.failed), inner.host.value);
    } else {
      DeliverAddsBounds(sc, info);
      VisitAddsBounds(Deliver(sc, info), d.children);
      var a, b, c := sc.host.value.bounds, OwnBounds(HostKind(sc), d), BoundsIn(HostKind(sc), d.children);
      assert a + b + c == a + (b + c);
    }
  }

  /** Array bounds end up at the nearest tracked ancestor, in listing order. */
  lemma VisitAddsBounds(sc: Scope, ds: seq<Die>)
    requires sc.host.Some?
    ensures Visit(sc, ds).host.value.bounds == sc.host.value.bounds + BoundsIn(HostKind(sc), ds)
    decreases ds, 1
  {
    hide AfterDie, Parsed, BoundsOfDie;
    if ds != [] {
      DieAddsBounds(sc, ds[0]);
      VisitAddsBounds(AfterDie(sc, ds[0]), ds[1..]);
      var a, b, c := sc.host.value.bounds, BoundsOfDie(HostKind(sc), ds[0]), BoundsIn(HostKind(sc), ds[1..]);
      assert a + b + c == a + (b + c);
    } else {
      assert sc.host.value.bounds + [] == sc.host.value.bounds;
    }
  }

  // ---- What the factory receives, in full ----

  /** The record of an entry with the parts that its descendants contribute. */
  function Filled(d: Die): Info {
    RecordOf(d.id, d.kind, d.params).(
      bounds := BoundsOf(d.params) + BoundsIn(d.kind, d.children),
      enumValues := Nearest(d.kind, d.children, Enumerator),
      members := Nearest(d.kind, d.children, Member),
      params := Nearest(d.kind, d.children, FormalParameter))
  }

  function WithoutQualifierName(info: Info): Info {
    if info.kind in {ConstType, VolatileType} then info.(name := "") else info
  }

  /** The symbols of a listing: an open entry follows its descendants, any other goes before them. */
  function SymbolsOf(scope: Kind, ds: seq<Die>): seq<Info>
    decreases ds
  {
    if ds == [] then [] else SymbolsOfDie(scope, ds[0]) + SymbolsOf(scope, ds[1..])
  }

  function SymbolsOfDie(scope: Kind, d: Die): seq<Info>
    decreases d
  {
    if IsOpen(scope, d) then SymbolsOf(d.kind, d.children) + OpenSymbol(scope, d)
    else ClosedSymbol(scope, d) + SymbolsOf(scope, d.children)
  }

  function OpenSymbol(scope: Kind, d: Die): seq<Info> {
    if IsSymbol(scope, d) then [WithoutQualifierName(Filled(d))] else []
  }

  function ClosedSymbol(scope: Kind, d: Die): seq<Info> {
    if IsSymbol(scope, d) then [SymbolOf(d.id, d.kind, d.params)] else []
  }

  lemma OpenIsFilled(scope: Kind, d: Die, out: seq<Info>, failed: bool)
    requires IsOpen(scope, d) && Counts(scope, d)
    ensures Visit(Scope(Some(Parsed(scope, d.id, d.kind, d.params)), out, failed), d.children).host == Some(Filled(d))
  {
    ParsedIsRecord(scope, d.id, d.kind, d.params);
    assert Parsed(scope, d.id, d.kind, d.params) == RecordOf(d.id, d.kind, d.params);
    hide Parsed, Visit, Nearest, BoundsIn, IsOpen, Counts, Interesting, Kept;
    var sc := Scope(Some(RecordOf(d.id, d.kind, d.params)), out, failed);
    VisitAttachesToNearest(sc, d.children, Enumerator);
    VisitAttachesToNearest(sc, d.children, Member);
    VisitAttachesToNearest(sc, d.children, FormalParameter);
    VisitAddsBounds(sc, d.children);
    var host := Visit(sc, d.children).host.value;
    assert host.enumValues == Nearest(d.kind, d.children, Enumerator);
    assert host.members == Nearest(d.kind, d.children, Member);
    assert host.params == Nearest(d.kind, d.children, FormalParameter);
    assert host == Filled(d);
  }

  /** An open entry is handed over with its parts. */
  lemma OpenBecomes(sc: Scope, scope: Kind, d: Die, info: Info)
    requires info.relevant <==> Counts(scope, d)
    requires info.relevant ==> info == Filled(d)
    ensures Deliver(sc, info).out == sc.out + OpenSymbol(scope, d)
  {
    hide Nearest, BoundsIn, Kept, NameOf, BoundsOf, SiblingOf;
    if info.relevant {
      assert !NeedsParent(info) ==> Symbols(info) == OpenSymbol(scope, d);
    }
    assert sc.out + [] == sc.out;
  }

  lemma ClosedBecomes(sc: Scope, scope: Kind, d: Die)
    ensures Deliver(sc, Parsed(scope, d.id, d.kind, d.params)).out == sc.out + ClosedSymbol(scope, d)
  {
    EntryBecomes(scope, d.id, d.kind, d.params);
    EntryIsAttached(scope, d.id, d.kind, d.params);
    hide Parsed, Symbols, NeedsParent, Interesting, Kept;
    assert sc.out + [] == sc.out;
  }

  lemma DieBecomes(sc: Scope, d: Die)
    ensures AfterDie(sc, d).out == sc.out + SymbolsOfDie(HostKind(sc), d)
    decreases d, 0
  {
    var scope := HostKind(sc);
    RecordFacts(scope, d);
    hide Deliver, Parsed, SymbolsOf, Visit, IsOpen, Counts, Symbols, NeedsParent, OpenSymbol, ClosedSymbol;
    var info := Parsed(scope, d.id, d.kind, d.params);
    if IsOpen(scope, d) {
      var start := Scope(Some(info), sc.out, sc.failed);
      var inner := Visit(start, d.children);
      ListingBecomes(start, d.children);
      if Counts(scope, d) { OpenIsFilled(scope, d, sc.out, sc.failed); }
      OpenBecomes(Scope(sc.host, inner.out, inner.failed), scope, d, inner.host.value);
      Associate(sc.out, SymbolsOf(d.kind, d.children), OpenSymbol(scope, d));
    } else {
      ClosedBecomes(sc, scope, d);
      ListingBecomes(Deliver(sc, info), d.children);
      Associate(sc.out, ClosedSymbol(scope, d), SymbolsOf(scope, d.children));
    }
  }

  /** Each entry that is a symbol is handed over once, with all its parts, after those that are open inside it. */
  lemma ListingBecomes(sc: Scope, ds: seq<Die>)
    ensures Visit(sc, ds).out == sc.out + SymbolsOf(HostKind(sc), ds)
    decreases ds, 1
  {
    hide AfterDie, SymbolsOfDie;
    if ds == [] {
      assert sc.out + [] == sc.out;
    } else {
      DieBecomes(sc, ds[0]);
      ListingBecomes(AfterDie(sc, ds[0]), ds[1..]);
      Associate(sc.out, SymbolsOfDie(HostKind(sc), ds[0]), SymbolsOf(HostKind(sc), ds[1..]));
    }
  }

  /** What the machine gives to the factory while it reads a well-nested listing. */
  lemma ListingIsHandedOver(ds: seq<Die>, end: int)
    requires ds != [] && AllWellNested(ds, end)
    ensures Finish(Feed(State([BLANK], [], false), ds), end).out == SymbolsOf(UnknownSymbol, ds)
  {
    hide Finish, Feed, Visit, SymbolsOf, AllWellNested, StackIsChain;
    ListingIsVisited(ds, end);
    ListingBecomes(Scope(None, [], false), ds);
    assert [] + SymbolsOf(UnknownSymbol, ds) == SymbolsOf(UnknownSymbol, ds);
  }
}
