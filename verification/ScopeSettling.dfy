/**
 * The scope machine follows the meaning of a listing: after an entry, or a list of them, the stack
 * is what it was before, and what was handed over is what a visit hands over.
 */
module ScopeSettling {
  import opened Options
  import opened SymbolScopes

  lemma ParamId(info: Info, k: Kind, ps: seq<Param>)
    ensures var r := WithParams(info, k, ps);
            r.id == info.id || r == BLANK
    decreases |ps|
  {
    if ps != [] { ParamId(info, k, ps[..|ps| - 1]); }
  }

  lemma ParsedId(scope: Kind, d: Die)
    ensures var info := Parsed(scope, d.id, d.kind, d.params);
            info.sibling > 0 ==> info.id == d.id
  {
    ParamId(Opened(scope, d.id, d.kind), d.kind, d.params);
    ParamSiblingOfIrrelevant(d.kind, d.params);
  }

  lemma ParamSiblingOfIrrelevant(k: Kind, ps: seq<Param>)
    ensures WithParams(BLANK, k, ps) == BLANK
    decreases |ps|
  {
    if ps != [] { ParamSiblingOfIrrelevant(k, ps[..|ps| - 1]); }
  }

  lemma ParamSibling(info: Info, k: Kind, ps: seq<Param>)
    ensures var s := WithParams(info, k, ps).sibling;
            s == info.sibling || s == -1 || exists i :: 0 <= i < |ps| && ps[i] == Sibling(s)
    decreases |ps|
  {
    if ps != [] {
      var before := ps[..|ps| - 1];
      ParamSibling(info, k, before);
      var s := WithParams(info, k, before).sibling;
      if exists i :: 0 <= i < |before| && before[i] == Sibling(s) {
        var i :| 0 <= i < |before| && before[i] == Sibling(s);
        assert ps[i] == Sibling(s);
      }
      assert ps[|ps| - 1] in ps;
    }
  }

  lemma ParsedSibling(scope: Kind, d: Die, next: int)
    requires WellNested(d, next)
    ensures var s := Parsed(scope, d.id, d.kind, d.params).sibling;
            s == -1 || (0 < s <= next && IdsBelow(d.children, s))
  {
    ParamSibling(Opened(scope, d.id, d.kind), d.kind, d.params);
  }

  lemma HandOverIsDeliver(rest: seq<Info>, info: Info, out: seq<Info>, failed: bool)
    ensures var h := HandOver(State(rest + [info], out, failed));
            var b := Back(rest, Deliver(ScopeOf(State(rest, out, failed)), info));
            h.infos == b.infos + [info] && h.out == b.out && h.failed == b.failed
  {
    assert (rest + [info])[|rest|] == info;
    if NeedsParent(info) && rest != [] {
      var parent := Attach(rest[|rest| - 1], info);
      assert (rest + [info])[|rest| - 1 := parent] == rest[|rest| - 1 := parent] + [info];
    }
  }

  lemma CloseIsDeliver(rest: seq<Info>, info: Info, out: seq<Info>, failed: bool, nextId: int)
    ensures Close(State(rest + [info], out, failed), nextId) ==
            Settle(Back(rest, Deliver(ScopeOf(State(rest, out, failed)), info)), nextId)
  {
    var s := State(rest + [info], out, failed);
    var b := Back(rest, Deliver(ScopeOf(State(rest, out, failed)), info));
    HandOverIsDeliver(rest, info, out, failed);
    var h := HandOver(s);
    hide HandOver, Back, Deliver;
    assert h.infos[..|h.infos| - 1] == b.infos;
    assert h.infos[|h.infos| - 1 := BLANK] == b.infos + [BLANK];
    assert b.infos != [] ==> h.infos[|h.infos| - 2] == b.infos[|b.infos| - 1];
  }

  /** One entry and its descendants, from the moment its parameters have been read. */
  lemma DieSettles(rest: seq<Info>, out: seq<Info>, failed: bool, d: Die, next: int)
    requires WellNested(d, next) && OpenBeyond(rest, d.children)
    ensures var info := Parsed(ScopeKind(rest), d.id, d.kind, d.params);
            var sc := ScopeOf(State(rest, out, failed));
            && Finish(Feed(State(rest + [info], out, failed), d.children), next) ==
               Settle(Back(rest, AfterDie(sc, d)), next)
            && StackIsChain(State(rest + [info], out, failed), d.children,
                 if Tracked(info, d) then Ids(rest) + [d.id] else Ids(rest))
    decreases d, 0
  {
    var info := Parsed(ScopeKind(rest), d.id, d.kind, d.params);
    var sc := ScopeOf(State(rest, out, failed));
    var s := State(rest + [info], out, failed);
    ParsedSibling(ScopeKind(rest), d, next);
    assert HostKind(sc) == ScopeKind(rest);
    assert s.infos[|s.infos| - 1] == info;
    if d.children == [] {
      CloseIsDeliver(rest, info, out, failed, next);
      assert Visit(Deliver(sc, info), []) == Deliver(sc, info);
    } else if info.sibling > 0 {
      TrackedSettles(rest, out, failed, d, next);
    } else {
      UntrackedSettles(rest, out, failed, d, next);
    }
  }

  lemma PushOpens(rest: seq<Info>, info: Info, out: seq<Info>, failed: bool, nextId: int)
    requires info.sibling > 0 && info.sibling > nextId
    ensures Finish(State(rest + [info], out, failed), nextId) == State((rest + [info]) + [BLANK], out, failed)
    ensures ScopeOf(State(rest + [info], out, failed)) == Scope(Some(info), out, failed)
  {
  }

  lemma TrackedCloses(rest: seq<Info>, info: Info, inner: Scope, next: int)
    requires inner.host.Some? && inner.host.value.sibling <= next
    ensures Settle(Back(rest + [info], inner), next) ==
            Settle(Back(rest, Deliver(ScopeOf(State(rest, inner.out, inner.failed)), inner.host.value)), next)
  {
    assert Back(rest + [info], inner) == State(rest + [inner.host.value], inner.out, inner.failed);
    CloseIsDeliver(rest, inner.host.value, inner.out, inner.failed, next);
  }

  lemma TrackedSettles(rest: seq<Info>, out: seq<Info>, failed: bool, d: Die, next: int)
    requires WellNested(d, next) && d.children != [] && OpenBeyond(rest, d.children)
    requires Parsed(ScopeKind(rest), d.id, d.kind, d.params).sibling > 0
    ensures var info := Parsed(ScopeKind(rest), d.id, d.kind, d.params);
            var sc := ScopeOf(State(rest, out, failed));
            && Finish(Feed(State(rest + [info], out, failed), d.children), next) ==
               Settle(Back(rest, AfterDie(sc, d)), next)
            && StackIsChain(State(rest + [info], out, failed), d.children,
                 if Tracked(info, d) then Ids(rest) + [d.id] else Ids(rest))
    decreases d.children, 1
  {
    hide Finish, Settle, Back, Deliver, Parsed, StackIsChain;
    var info := Parsed(ScopeKind(rest), d.id, d.kind, d.params);
    var sc := ScopeOf(State(rest, out, failed));
    var s := State(rest + [info], out, failed);
    ParsedSibling(ScopeKind(rest), d, next);
    ParsedId(ScopeKind(rest), d);
    assert d.children[0] in d.children;
    PushOpens(rest, info, out, failed, d.children[0].id);
    assert Ids(rest + [info]) == Ids(rest) + [d.id];
    assert OpenBeyond(rest + [info], d.children);
    ForestSettles(s, rest + [info], out, failed, d.children, next);
    TrackedCloses(rest, info, Visit(Scope(Some(info), out, failed), d.children), next);
  }

  lemma UntrackedCloses(rest: seq<Info>, info: Info, out: seq<Info>, failed: bool, first: int)
    requires info.sibling <= 0
    requires rest != [] ==> rest[|rest| - 1].sibling > first
    ensures var b := Back(rest, Deliver(ScopeOf(State(rest, out, failed)), info));
            Finish(State(rest + [info], out, failed), first) == State(b.infos + [BLANK], b.out, b.failed)
  {
    CloseIsDeliver(rest, info, out, failed, first);
  }

  lemma UntrackedSettles(rest: seq<Info>, out: seq<Info>, failed: bool, d: Die, next: int)
    requires WellNested(d, next) && d.children != [] && OpenBeyond(rest, d.children)
    requires Parsed(ScopeKind(rest), d.id, d.kind, d.params).sibling <= 0
    ensures var info := Parsed(ScopeKind(rest), d.id, d.kind, d.params);
            var sc := ScopeOf(State(rest, out, failed));
            && Finish(Feed(State(rest + [info], out, failed), d.children), next) ==
               Settle(Back(rest, AfterDie(sc, d)), next)
            && StackIsChain(State(rest + [info], out, failed), d.children,
                 if Tracked(info, d) then Ids(rest) + [d.id] else Ids(rest))
    decreases d.children, 1
  {
    hide Finish, Settle, Back, Deliver, Parsed, StackIsChain, OpenBeyond, Ids;
    var info := Parsed(ScopeKind(rest), d.id, d.kind, d.params);
    var sc := ScopeOf(State(rest, out, failed));
    var s := State(rest + [info], out, failed);
    BeyondFirst(rest, d.children);
    UntrackedCloses(rest, info, out, failed, d.children[0].id);
    var mid := Deliver(sc, info);
    var b := Back(rest, mid);
    BackScope(rest, mid);
    SameHost(rest, mid, d.children);
    ForestSettles(s, b.infos, b.out, b.failed, d.children, next);
    BackTwice(rest, mid, Visit(mid, d.children));
  }

  /** Attaching a sub-entry changes neither the id nor the offset of its host. */
  lemma SameHost(rest: seq<Info>, sc: Scope, ds: seq<Die>)
    requires sc.host.Some? <==> rest != []
    requires rest != [] ==> sc.host.value.id == rest[|rest| - 1].id && sc.host.value.sibling == rest[|rest| - 1].sibling
    ensures Ids(Back(rest, sc).infos) == Ids(rest)
    ensures OpenBeyond(rest, ds) ==> OpenBeyond(Back(rest, sc).infos, ds)
  {
    var b := Back(rest, sc).infos;
    assert forall i :: 0 <= i < |rest| ==> b[i].id == rest[i].id && b[i].sibling == rest[i].sibling;
  }

  lemma BackTwice(rest: seq<Info>, sc: Scope, sc': Scope)
    requires (sc.host.Some? <==> rest != []) && (sc'.host.Some? <==> rest != [])
    ensures Back(Back(rest, sc).infos, sc') == Back(rest, sc')
  {
  }

  lemma EnterAfterFinish(s: State, rest: seq<Info>, out: seq<Info>, failed: bool, d: Die)
    requires s.infos != [] && Finish(s, d.id) == State(rest + [BLANK], out, failed)
    ensures Enter(s, d.id, d.kind, d.params) ==
            State(rest + [Parsed(ScopeKind(rest), d.id, d.kind, d.params)], out, failed)
    ensures Rest(Finish(s, d.id).infos) == rest
  {
    assert Rest(rest + [BLANK]) == rest;
  }

  lemma SettleStaysOpen(b: State, nextId: int)
    requires b.infos != [] ==> b.infos[|b.infos| - 1].sibling > nextId
    ensures Settle(b, nextId) == State(b.infos + [BLANK], b.out, b.failed)
  {
  }

  lemma BeyondFirst(rest: seq<Info>, ds: seq<Die>)
    requires OpenBeyond(rest, ds) && ds != []
    ensures forall i :: 0 <= i < |rest| ==> rest[i].sibling > ds[0].id
    ensures OpenBeyond(rest, ds[0].children) && OpenBeyond(rest, ds[1..])
  {
    assert ds[0] in ds;
    forall i | 0 <= i < |rest|
      ensures rest[i].sibling > ds[0].id && IdsBelow(ds[0].children, rest[i].sibling)
                && IdsBelow(ds[1..], rest[i].sibling)
    {
      assert IdsBelow(ds, rest[i].sibling);
      assert forall d :: d in ds[1..] ==> d in ds;
    }
  }

  /** A forest, from a state that the first header of it finds with nothing pending. */
  lemma ForestSettles(s: State, rest: seq<Info>, out: seq<Info>, failed: bool, ds: seq<Die>, end: int)
    requires ds != [] && s.infos != []
    requires AllWellNested(ds, end) && OpenBeyond(rest, ds)
    requires Finish(s, ds[0].id) == State(rest + [BLANK], out, failed)
    ensures Finish(Feed(s, ds), end) == Settle(Back(rest, Visit(ScopeOf(State(rest, out, failed)), ds)), end)
    ensures StackIsChain(s, ds, Ids(rest))
    decreases ds, 0
  {
    hide Finish, Settle, Back, Parsed, AfterDie, Enter, OpenBeyond, Ids;
    var d, more := ds[0], ds[1..];
    var sc := ScopeOf(State(rest, out, failed));
    var s1 := Enter(s, d.id, d.kind, d.params);
    var s2 := Feed(s1, d.children);
    var sc1 := AfterDie(sc, d);
    BeyondFirst(rest, ds);
    EnterAfterFinish(s, rest, out, failed, d);
    DieSettles(rest, out, failed, d, NextId(more, end));
    assert Visit(sc, ds) == Visit(sc1, more);
    assert Feed(s, ds) == Feed(s2, more);
    if more != [] {
      var b := Back(rest, sc1);
      SameHost(rest, sc1, more);
      BackScope(rest, sc1);
      BeyondFirst(b.infos, more);
      SettleStaysOpen(b, more[0].id);
      ForestSettles(s2, b.infos, b.out, b.failed, more, end);
      BackTwice(rest, sc1, Visit(sc1, more));
    } else {
      assert Visit(sc1, more) == sc1;
      assert Feed(s2, more) == s2;
    }
  }

  lemma BackScope(rest: seq<Info>, sc: Scope)
    requires sc.host.Some? <==> rest != []
    ensures ScopeOf(Back(rest, sc)) == sc
  {
  }
}
