/**
 * The walk of the rule writer over a structure and the structures nested in it by value: an
 * explicit stack of members and of member positions in place of recursion.
 */
module MemberWalk {
  import opened Options
  import opened Sequences

  /**
   * A member knows the structure it belongs to and its position there, which together identify it.
   * `nested` is the structure or union its type comes down to when typedefs and qualifiers are removed.
   */
  datatype Member = Member(owner: nat, position: nat, nested: Option<nat>, hasAlternatives: bool)

  type Path = seq<Member>

  /** All structures; number `s` has the members `types[s]`. */
  type Types = seq<seq<Member>>

  /** Nesting by value is finite: structures can be numbered so that the nested one comes first. */
  predicate Finite(types: Types) {
    forall s, i :: 0 <= s < |types| && 0 <= i < |types[s]| ==> Placed(types[s][i], s, i)
  }

  predicate Placed(m: Member, s: nat, i: nat) {
    m.owner == s && m.position == i && (m.nested.Some? ==> m.nested.value < s)
  }

  // ---- What is to be visited ----

  /** The recursive pre-order walk, from member `i` of structure `s` on. */
  function Walk(types: Types, path: Path, s: nat, i: nat): seq<Path>
    requires Finite(types) && s < |types|
    decreases s, |types[s]| - i
  {
    if i >= |types[s]| then []
    else [path + [types[s][i]]] + Below(types, path + [types[s][i]]) + Walk(types, path, s, i + 1)
  }

  /** The part of the walk inside the last member of a path. */
  function Below(types: Types, path: Path): seq<Path>
    requires Finite(types) && path != []
    requires path[|path| - 1].owner < |types|
    requires path[|path| - 1].nested.Some? ==> path[|path| - 1].nested.value < path[|path| - 1].owner
    decreases path[|path| - 1].owner, -1
  {
    var m := path[|path| - 1];
    if m.nested.Some? then Walk(types, path, m.nested.value, 0) else []
  }

  /** A chain of members, each declared in the structure that the one before it nests. */
  predicate IsPath(types: Types, s: nat, q: Path)
    requires Finite(types) && s < |types|
    decreases |q|
  {
    q != [] && q[0] in types[s]
    && (q[1..] != [] ==> q[0].nested.Some? && q[0].nested.value < |types| && IsPath(types, q[0].nested.value, q[1..]))
  }

  /** Declaration order, a member before the members nested in it. */
  predicate Before(p: Path, q: Path) {
    q != [] && (p == [] || p[0].position < q[0].position || (p[0] == q[0] && Before(p[1..], q[1..])))
  }

  predicate Increasing(paths: seq<Path>) {
    forall j, k :: 0 <= j < k < |paths| ==> Before(paths[j], paths[k])
  }

  // ---- The recursive walk visits every path, once, in order ----

  predicate Extends(types: Types, path: Path, s: nat, i: nat, p: Path)
    requires Finite(types) && s < |types|
  {
    |path| < |p| && p[..|path|] == path && IsPath(types, s, p[|path|..]) && p[|path|].position >= i
  }

  lemma OwnMember(types: Types, s: nat, m: Member)
    requires Finite(types) && s < |types| && m in types[s]
    ensures m.position < |types[s]| && types[s][m.position] == m && Placed(m, s, m.position)
  {
    var i :| 0 <= i < |types[s]| && types[s][i] == m;
    assert Placed(types[s][i], s, i);
  }

  lemma Deeper(types: Types, path: Path, s: nat, i: nat, p: Path)
    requires Finite(types) && s < |types| && i < |types[s]|
    requires types[s][i].nested.Some? && types[s][i].nested.value < |types|
    ensures Extends(types, path + [types[s][i]], types[s][i].nested.value, 0, p) ==>
              Extends(types, path, s, i, p) && p[|path|] == types[s][i] && |p| > |path| + 1
    ensures Extends(types, path, s, i, p) && p[|path|] == types[s][i] && |p| > |path| + 1 ==>
              Extends(types, path + [types[s][i]], types[s][i].nested.value, 0, p)
  {
    var m := types[s][i];
    assert Placed(m, s, i);
    if |p| > |path| {
      assert p[|path|..][1..] == p[|path| + 1..];
      assert p[..|path| + 1] == p[..|path|] + [p[|path|]];
      assert (path + [m])[..|path|] == path;
    }
  }

  lemma {:induction false} WalkVisits(types: Types, path: Path, s: nat, i: nat, p: Path)
    requires Finite(types) && s < |types|
    ensures p in Walk(types, path, s, i) <==> Extends(types, path, s, i, p)
    decreases s, |types[s]| - i
  {
    if i >= |types[s]| {
      if |path| < |p| && p[..|path|] == path && IsPath(types, s, p[|path|..]) {
        OwnMember(types, s, p[|path|]);
      }
    } else {
      var m := types[s][i];
      assert Placed(m, s, i);
      WalkVisits(types, path, s, i + 1, p);
      if m.nested.Some? {
        WalkVisits(types, path + [m], m.nested.value, 0, p);
        Deeper(types, path, s, i, p);
      }
      WalkStep(types, path, s, i, p);
    }
  }

  lemma WalkStep(types: Types, path: Path, s: nat, i: nat, p: Path)
    requires Finite(types) && s < |types| && i < |types[s]|
    requires types[s][i].nested.Some? ==> types[s][i].nested.value < s
    ensures Extends(types, path, s, i, p) <==>
            p == path + [types[s][i]] || Extends(types, path, s, i + 1, p)
            || (types[s][i].nested.Some? && Extends(types, path + [types[s][i]], types[s][i].nested.value, 0, p))
  {
    var m := types[s][i];
    assert Placed(m, s, i);
    if m.nested.Some? { Deeper(types, path, s, i, p); }
    if p == path + [m] {
      assert p[|path|..] == [m];
    }
    if Extends(types, path, s, i, p) {
      OwnMember(types, s, p[|path|]);
      if p[|path|] == m && |p| == |path| + 1 {
        assert p == p[..|path|] + [m];
      }
    }
  }

  lemma {:induction false} BeforePrefixed(path: Path, p: Path, q: Path)
    ensures Before(path + p, path + q) <==> Before(p, q)
  {
    if path == [] {
      assert path + p == p && path + q == q;
    } else {
      BeforePrefixed(path[1..], p, q);
      assert (path + p)[1..] == path[1..] + p && (path + q)[1..] == path[1..] + q;
    }
  }

  lemma ExtensionsCompare(types: Types, path: Path, s: nat, i: nat, p: Path, q: Path)
    requires Finite(types) && s < |types| && i < |types[s]|
    requires Extends(types, path, s, i, p) && p[|path|] == types[s][i]
    requires Extends(types, path, s, i + 1, q)
    ensures Before(p, q)
  {
    BeforePrefixed(path, p[|path|..], q[|path|..]);
    assert Placed(types[s][i], s, i);
    assert path + p[|path|..] == p && path + q[|path|..] == q;
  }

  lemma PrefixComesFirst(path: Path, p: Path)
    requires |path| < |p| && p[..|path|] == path
    ensures Before(path, p)
  {
    BeforePrefixed(path, [], p[|path|..]);
    assert path + [] == path && path + p[|path|..] == p;
  }

  predicate AllBefore(a: seq<Path>, b: seq<Path>) {
    forall p, q :: p in a && q in b ==> Before(p, q)
  }

  lemma JoinIncreasing(a: seq<Path>, b: seq<Path>)
    requires Increasing(a) && Increasing(b) && AllBefore(a, b)
    ensures Increasing(a + b)
  {
    forall j, k | 0 <= j < k < |a + b| ensures Before((a + b)[j], (a + b)[k]) {
      if k < |a| {
        assert Before(a[j], a[k]);
      } else if j < |a| {
        assert a[j] in a && b[k - |a|] in b;
      } else {
        assert Before(b[j - |a|], b[k - |a|]);
      }
    }
  }

  lemma BelowExtends(types: Types, path: Path, s: nat, i: nat, p: Path)
    requires Finite(types) && s < |types| && i < |types[s]| && Placed(types[s][i], s, i)
    requires p in Below(types, path + [types[s][i]])
    ensures Extends(types, path, s, i, p) && p[|path|] == types[s][i] && |p| > |path| + 1
  {
    WalkVisits(types, path + [types[s][i]], types[s][i].nested.value, 0, p);
    Deeper(types, path, s, i, p);
  }

  lemma HeadBeforeBelow(types: Types, path: Path, s: nat, i: nat)
    requires Finite(types) && s < |types| && i < |types[s]| && Placed(types[s][i], s, i)
    ensures AllBefore([path + [types[s][i]]], Below(types, path + [types[s][i]]))
  {
    var here := path + [types[s][i]];
    forall p | p in Below(types, here) ensures Before(here, p) {
      BelowExtends(types, path, s, i, p);
      assert p[..|path| + 1] == p[..|path|] + [p[|path|]];
      PrefixComesFirst(here, p);
    }
  }

  lemma HeadBeforeRest(types: Types, path: Path, s: nat, i: nat)
    requires Finite(types) && s < |types| && i < |types[s]| && Placed(types[s][i], s, i)
    ensures AllBefore([path + [types[s][i]]] + Below(types, path + [types[s][i]]), Walk(types, path, s, i + 1))
  {
    var here := path + [types[s][i]];
    forall p, q | p in [here] + Below(types, here) && q in Walk(types, path, s, i + 1) ensures Before(p, q) {
      WalkVisits(types, path, s, i + 1, q);
      if p == here {
        WalkStep(types, path, s, i, p);
      } else {
        BelowExtends(types, path, s, i, p);
      }
      ExtensionsCompare(types, path, s, i, p, q);
    }
  }

  /** The walk is in declaration order, so nothing is visited twice. */
  lemma {:induction false} WalkIncreases(types: Types, path: Path, s: nat, i: nat)
    requires Finite(types) && s < |types|
    ensures Increasing(Walk(types, path, s, i))
    decreases s, |types[s]| - i
  {
    hide Extends, Before, Increasing, AllBefore;
    if i < |types[s]| {
      var m := types[s][i];
      assert Placed(m, s, i);
      var here := path + [m];
      HeadBeforeBelow(types, path, s, i);
      HeadBeforeRest(types, path, s, i);
      WalkIncreases(types, path, s, i + 1);
      if m.nested.Some? { WalkIncreases(types, here, m.nested.value, 0); }
      ShortIncreases(Below(types, here), m.nested.None?);
      ShortIncreases([here], true);
      JoinIncreasing([here], Below(types, here));
      JoinIncreasing([here] + Below(types, here), Walk(types, path, s, i + 1));
    } else {
      ShortIncreases(Walk(types, path, s, i), true);
    }
  }

  lemma ShortIncreases(paths: seq<Path>, short: bool)
    requires short ==> |paths| <= 1
    requires !short ==> Increasing(paths)
    ensures Increasing(paths)
  {
  }

  lemma {:induction false} NotBeforeItself(p: Path)
    ensures !Before(p, p)
  {
    if p != [] { NotBeforeItself(p[1..]); }
  }

  /** The walk of a structure is the list, in declaration order, of all its member paths, each once. */
  lemma WalkIsAllPaths(types: Types, s: nat)
    requires Finite(types) && s < |types|
    ensures forall p :: p in Walk(types, [], s, 0) <==> IsPath(types, s, p)
    ensures Increasing(Walk(types, [], s, 0))
    ensures forall j, k :: 0 <= j < k < |Walk(types, [], s, 0)| ==> Walk(types, [], s, 0)[j] != Walk(types, [], s, 0)[k]
  {
    var walk := Walk(types, [], s, 0);
    forall p ensures p in walk <==> IsPath(types, s, p) {
      WalkVisits(types, [], s, 0, p);
      assert p[0..] == p && p[..0] == [];
    }
    WalkIncreases(types, [], s, 0);
    forall j, k | 0 <= j < k < |walk| ensures walk[j] != walk[k] {
      NotBeforeItself(walk[j]);
      assert Before(walk[j], walk[k]);
    }
  }

  // ---- What the loop visits ----

  /** The member's type is a structure or union without members. */
  predicate DeadEnd(types: Types, path: Path) {
    path != [] && path[|path| - 1].nested.Some? && path[|path| - 1].nested.value < |types|
    && types[path[|path| - 1].nested.value] == []
  }

  /** A walk that stops after the first dead end. */
  function UntilDeadEnd(types: Types, paths: seq<Path>): seq<Path> {
    if paths == [] then []
    else if DeadEnd(types, paths[0]) then [paths[0]]
    else [paths[0]] + UntilDeadEnd(types, paths[1..])
  }

  /** The visited members a rule file has something to say about. */
  function WithAlternatives(paths: seq<Path>): seq<Path> {
    if paths == [] then []
    else
      var last := paths[|paths| - 1];
      WithAlternatives(paths[..|paths| - 1]) + (if last != [] && last[|last| - 1].hasAlternatives then [last] else [])
  }

  /** Everything up to and including the first dead end, or everything. */
  lemma {:induction false} UntilFirstDeadEnd(types: Types, paths: seq<Path>)
    ensures var n := |UntilDeadEnd(types, paths)|;
            && n <= |paths| && UntilDeadEnd(types, paths) == paths[..n]
            && (n < |paths| ==> n > 0 && DeadEnd(types, paths[n - 1]))
            && forall k :: 0 <= k < n - 1 ==> !DeadEnd(types, paths[k])
  {
    if paths != [] && !DeadEnd(types, paths[0]) {
      UntilFirstDeadEnd(types, paths[1..]);
    }
  }

  /** A rule is written for a member exactly if it is visited and has alternatives ... */
  lemma {:induction false} RulesAreWritten(paths: seq<Path>, p: Path)
    ensures p in WithAlternatives(paths) <==> p in paths && p != [] && p[|p| - 1].hasAlternatives
  {
    if paths != [] {
      assert paths == paths[..|paths| - 1] + [paths[|paths| - 1]];
      RulesAreWritten(paths[..|paths| - 1], p);
    }
  }

  /** ... and in the order of the visits. */
  lemma {:induction false} RulesInOrder(paths: seq<Path>)
    requires Increasing(paths)
    ensures Increasing(WithAlternatives(paths))
  {
    if paths != [] {
      var front, last := paths[..|paths| - 1], paths[|paths| - 1];
      FrontIncreases(paths);
      RulesInOrder(front);
      hide Before;
      forall p | p in WithAlternatives(front) ensures p in front { RulesAreWritten(front, p); }
      var own := if last != [] && last[|last| - 1].hasAlternatives then [last] else [];
      assert AllBefore(WithAlternatives(front), own);
      ShortIncreases(own, true);
      JoinIncreasing(WithAlternatives(front), own);
    }
  }

  lemma FrontIncreases(paths: seq<Path>)
    requires paths != [] && Increasing(paths)
    ensures Increasing(paths[..|paths| - 1])
    ensures AllBefore(paths[..|paths| - 1], [paths[|paths| - 1]])
  {
    hide Before;
    var front := paths[..|paths| - 1];
    forall j, k | 0 <= j < k < |front| ensures Before(front[j], front[k]) {
      assert Before(paths[j], paths[k]);
    }
  }

  /** Every member on the stack nests the structure of the one above it; the top one nests `cur`. */
  predicate Nests(types: Types, s: nat, members: Path, cur: nat)
    requires Finite(types)
    decreases |members|
  {
    cur < |types| && (
      if members == [] then cur == s
      else
        var m := members[|members| - 1];
        m.nested == Some(cur) && m.owner < |types| && m in types[m.owner]
        && Nests(types, s, members[..|members| - 1], m.owner)
    )
  }

  /** What is still to be visited around the members on the stack. */
  function Around(types: Types, s: nat, members: Path, cur: nat): seq<Path>
    requires Finite(types) && Nests(types, s, members, cur)
    decreases |members|
  {
    if members == [] then []
    else
      var m, outer := members[|members| - 1], members[..|members| - 1];
      Walk(types, outer, m.owner, m.position + 1) + Around(types, s, outer, m.owner)
  }

  /** What the loop still has to visit: the rest of the current structure, then of the ones around it. */
  function Rest(types: Types, s: nat, members: Path, cur: nat, i: nat): seq<Path>
    requires Finite(types) && Nests(types, s, members, cur)
  {
    Walk(types, members, cur, i) + Around(types, s, members, cur)
  }

  lemma Pushed(types: Types, s: nat, members: Path, cur: nat, i: nat)
    requires Finite(types) && Nests(types, s, members, cur) && i < |types[cur]| && types[cur][i].nested.Some?
    ensures Placed(types[cur][i], cur, i) && Nests(types, s, members + [types[cur][i]], types[cur][i].nested.value)
    ensures Around(types, s, members + [types[cur][i]], types[cur][i].nested.value) ==
            Walk(types, members, cur, i + 1) + Around(types, s, members, cur)
  {
    hide Walk;
    assert Placed(types[cur][i], cur, i);
    assert (members + [types[cur][i]])[..|members|] == members;
  }

  lemma RestEnter(types: Types, s: nat, members: Path, cur: nat, i: nat)
    requires Finite(types) && Nests(types, s, members, cur) && cur < |types| && i < |types[cur]|
    requires types[cur][i].nested.Some?
    ensures Placed(types[cur][i], cur, i) && Nests(types, s, members + [types[cur][i]], types[cur][i].nested.value)
    ensures Rest(types, s, members, cur, i) ==
            [members + [types[cur][i]]] + Rest(types, s, members + [types[cur][i]], types[cur][i].nested.value, 0)
  {
    hide Around, Nests;
    Pushed(types, s, members, cur, i);
    AssociateFour([members + [types[cur][i]]], Below(types, members + [types[cur][i]]),
              Walk(types, members, cur, i + 1),
              Around(types, s, members, cur));
  }

  lemma RestStart(types: Types, s: nat)
    requires Finite(types) && s < |types|
    ensures Rest(types, s, [], s, 0) == Walk(types, [], s, 0)
  {
  }

  lemma RestPass(types: Types, s: nat, members: Path, cur: nat, i: nat)
    requires Finite(types) && Nests(types, s, members, cur) && cur < |types| && i < |types[cur]|
    requires types[cur][i].nested.None?
    ensures Rest(types, s, members, cur, i) == [members + [types[cur][i]]] + Rest(types, s, members, cur, i + 1)
  {
    hide Around, Nests;
    assert Placed(types[cur][i], cur, i);
    assert Below(types, members + [types[cur][i]]) == [];
    AssociateFour([members + [types[cur][i]]], [], Walk(types, members, cur, i + 1), Around(types, s, members, cur));
  }

  lemma RestLeave(types: Types, s: nat, members: Path, cur: nat, i: nat)
    requires Finite(types) && Nests(types, s, members, cur) && i >= |types[cur]| && members != []
    ensures Rest(types, s, members, cur, i) ==
            Rest(types, s, members[..|members| - 1], members[|members| - 1].owner, members[|members| - 1].position + 1)
  {
  }

  lemma RestDone(types: Types, s: nat, cur: nat, i: nat)
    requires Finite(types) && Nests(types, s, [], cur) && i >= |types[cur]|
    ensures Rest(types, s, [], cur, i) == []
  {
  }

  predicate Alive(types: Types, visits: seq<Path>) {
    forall k :: 0 <= k < |visits| ==> !DeadEnd(types, visits[k])
  }

  lemma {:induction false} StopsAlive(types: Types, visits: seq<Path>)
    requires Alive(types, visits)
    ensures UntilDeadEnd(types, visits) == visits
  {
    if visits != [] {
      assert Alive(types, visits[1..]);
      StopsAlive(types, visits[1..]);
    }
  }

  lemma {:induction false} StopsAtDeadEnd(types: Types, visits: seq<Path>, last: Path, rest: seq<Path>)
    requires Alive(types, visits) && DeadEnd(types, last)
    ensures UntilDeadEnd(types, visits + [last] + rest) == visits + [last]
  {
    var all := visits + [last] + rest;
    if visits != [] {
      assert Alive(types, visits[1..]);
      StopsAtDeadEnd(types, visits[1..], last, rest);
      assert all[1..] == visits[1..] + [last] + rest;
    }
  }

  // ---- The loop ----

  /** The saved indices are the positions of the members on the stack. */
  predicate Saved(members: Path, memberIndex: seq<nat>) {
    |memberIndex| == |members| && forall k :: 0 <= k < |members| ==> memberIndex[k] == members[k].position
  }

  /** The visits made so far and those still to come make up the recursive walk. */
  predicate OnTrack(types: Types, s: nat, members: Path, memberIndex: seq<nat>, cur: nat, i: nat, visits: seq<Path>)
    requires Finite(types)
  {
    s < |types| && cur < |types| && Nests(types, s, members, cur) && Saved(members, memberIndex)
    && visits + Rest(types, s, members, cur, i) == Walk(types, [], s, 0)
  }

  /** A dead end was met if the current structure is finished with members still on the stack. */
  predicate Stuck(types: Types, members: Path, cur: nat, i: nat, visits: seq<Path>)
    requires cur < |types|
  {
    if i < |types[cur]| || members == [] then Alive(types, visits)
    else visits != [] && Alive(types, visits[..|visits| - 1]) && DeadEnd(types, visits[|visits| - 1])
  }

  lemma TrackVisits(types: Types, s: nat, members: Path, memberIndex: seq<nat>, cur: nat, i: nat, visits: seq<Path>)
    requires Finite(types) && OnTrack(types, s, members, memberIndex, cur, i, visits) && i < |types[cur]|
    ensures |visits| < |Walk(types, [], s, 0)|
  {
  }

  lemma TrackEnter(types: Types, s: nat, members: Path, memberIndex: seq<nat>, cur: nat, i: nat, visits: seq<Path>)
    requires Finite(types) && OnTrack(types, s, members, memberIndex, cur, i, visits) && i < |types[cur]|
    requires types[cur][i].nested.Some?
    ensures OnTrack(types, s, members + [types[cur][i]], memberIndex + [i], types[cur][i].nested.value, 0,
                    visits + [members + [types[cur][i]]])
  {
    hide Nests, Rest;
    RestEnter(types, s, members, cur, i);
  }

  lemma TrackPass(types: Types, s: nat, members: Path, memberIndex: seq<nat>, cur: nat, i: nat, visits: seq<Path>)
    requires Finite(types) && OnTrack(types, s, members, memberIndex, cur, i, visits) && i < |types[cur]|
    requires types[cur][i].nested.None?
    ensures OnTrack(types, s, members, memberIndex, cur, i + 1, visits + [members + [types[cur][i]]])
  {
    hide Nests, Rest, Saved;
    RestPass(types, s, members, cur, i);
  }

  lemma TrackLeave(types: Types, s: nat, members: Path, memberIndex: seq<nat>, cur: nat, i: nat, visits: seq<Path>)
    requires Finite(types) && OnTrack(types, s, members, memberIndex, cur, i, visits) && i >= |types[cur]|
    requires members != []
    ensures |memberIndex| == |members|
    ensures OnTrack(types, s, members[..|members| - 1], memberIndex[..|memberIndex| - 1], members[|members| - 1].owner,
                    memberIndex[|memberIndex| - 1] + 1, visits)
  {
    hide Rest;
    RestLeave(types, s, members, cur, i);
  }

  lemma TrackEnds(types: Types, s: nat, members: Path, memberIndex: seq<nat>, cur: nat, i: nat, visits: seq<Path>)
    requires Finite(types) && OnTrack(types, s, members, memberIndex, cur, i, visits) && i >= |types[cur]|
    requires Stuck(types, members, cur, i, visits)
    ensures visits == UntilDeadEnd(types, Walk(types, [], s, 0))
  {
    hide Nests, Rest, Saved, UntilDeadEnd, Alive, DeadEnd, Walk;
    if members == [] {
      RestDone(types, s, cur, i);
      assert visits + [] == visits;
      StopsAlive(types, visits);
    } else {
      assert visits == visits[..|visits| - 1] + [visits[|visits| - 1]];
      StopsAtDeadEnd(types, visits[..|visits| - 1], visits[|visits| - 1], Rest(types, s, members, cur, i));
    }
  }

  lemma OneMore(types: Types, visits: seq<Path>, path: Path)
    requires Alive(types, visits)
    ensures (visits + [path])[..|visits|] == visits
    ensures Alive(types, visits + [path]) <==> !DeadEnd(types, path)
    ensures WithAlternatives(visits + [path]) ==
            WithAlternatives(visits) + (if path != [] && path[|path| - 1].hasAlternatives then [path] else [])
  {
    hide DeadEnd;
    assert (visits + [path])[|visits|] == path;
    if !DeadEnd(types, path) {
      forall k | 0 <= k < |visits + [path]| ensures !DeadEnd(types, (visits + [path])[k]) {
        if k < |visits| { assert !DeadEnd(types, visits[k]); }
      }
    }
  }

  /**
   * The loop of the rule writer. `members` and `memberIndex` are its stacks; a member with
   * alternative types gets a rule for the path then held in `members`.
   */
  method WriteStructDeep(types: Types, source: Option<nat>) returns (rules: seq<Path>)
    requires Finite(types) && (source.Some? ==> source.value < |types|)
    ensures rules == if source.None? then []
              else WithAlternatives(UntilDeadEnd(types, Walk(types, [], source.value, 0)))
  {
    hide UntilDeadEnd, Walk, Saved, Nests, Alive, WithAlternatives;
    var members: Path := [];
    var memberIndex: seq<nat> := [];
    ghost var visits: seq<Path> := [];
    rules := [];
    NothingVisited(types);
    if source.None? {
      return;
    }
    var s := source.value;
    var cur: nat, i: nat := s, 0;
    TrackStarts(types, s);
    while i < |types[cur]|
      invariant OnTrack(types, s, members, memberIndex, cur, i, visits)
      invariant Stuck(types, members, cur, i, visits)
      invariant rules == WithAlternatives(visits)
      decreases |Walk(types, [], s, 0)| - |visits|
    {
      TrackVisits(types, s, members, memberIndex, cur, i, visits);
      var m := types[cur][i];
      OneMore(types, visits, members + [m]);
      if m.nested.Some? {
        TrackEnter(types, s, members, memberIndex, cur, i, visits);
      } else {
        TrackPass(types, s, members, memberIndex, cur, i, visits);
      }
      hide OnTrack;
      members := members + [m];
      visits := visits + [members];
      if m.hasAlternatives {
        rules := rules + [members];
      }
      if m.nested.Some? {
        memberIndex := memberIndex + [i];
        cur := m.nested.value;
        i := 0;
      } else {
        i := i + 1;
        members := members[..|members| - 1];
        while i >= |types[cur]| && members != []
          invariant OnTrack(types, s, members, memberIndex, cur, i, visits)
          decreases |members|
        {
          TrackLeave(types, s, members, memberIndex, cur, i, visits);
          i := memberIndex[|memberIndex| - 1] + 1;
          memberIndex := memberIndex[..|memberIndex| - 1];
          cur := members[|members| - 1].owner;
          members := members[..|members| - 1];
        }
      }
    }
    TrackEnds(types, s, members, memberIndex, cur, i, visits);
  }

  lemma TrackStarts(types: Types, s: nat)
    requires Finite(types) && s < |types|
    ensures OnTrack(types, s, [], [], s, 0, [])
    ensures Stuck(types, [], s, 0, [])
  {
    RestStart(types, s);
  }

  lemma NothingVisited(types: Types)
    ensures WithAlternatives([]) == []
  {
  }

  // ---- When nothing is left out ----

  /** A dead end can only be the very last member path. */
  predicate EndsOnlyLast(types: Types, paths: seq<Path>) {
    forall k :: 0 <= k < |paths| - 1 ==> !DeadEnd(types, paths[k])
  }

  lemma {:induction false} CompleteIff(types: Types, paths: seq<Path>)
    ensures UntilDeadEnd(types, paths) == paths <==> EndsOnlyLast(types, paths)
    ensures UntilDeadEnd(types, paths) <= paths
  {
    hide DeadEnd;
    if paths != [] {
      CompleteIff(types, paths[1..]);
      assert EndsOnlyLast(types, paths) <==>
          (|paths| > 1 ==> !DeadEnd(types, paths[0])) && EndsOnlyLast(types, paths[1..]) by {
        if |paths| > 1 && !DeadEnd(types, paths[0]) && EndsOnlyLast(types, paths[1..]) {
          forall k | 0 <= k < |paths| - 1 ensures !DeadEnd(types, paths[k]) {
            if k > 0 { assert !DeadEnd(types, paths[1..][k - 1]); }
          }
        }
        if EndsOnlyLast(types, paths) {
          forall k | 0 <= k < |paths[1..]| - 1 ensures !DeadEnd(types, paths[1..][k]) {
            assert !DeadEnd(types, paths[k + 1]);
          }
        }
      }
      assert paths == [paths[0]] + paths[1..];
    }
  }

  /**
   * The loop visits every member path exactly if no member but the last one of the walk is of an
   * empty structure type; otherwise it visits a proper initial part.
   */
  lemma VisitsEverythingIff(types: Types, s: nat)
    requires Finite(types) && s < |types|
    ensures UntilDeadEnd(types, Walk(types, [], s, 0)) <= Walk(types, [], s, 0)
    ensures (forall p :: IsPath(types, s, p) ==> p in UntilDeadEnd(types, Walk(types, [], s, 0)))
            <==> EndsOnlyLast(types, Walk(types, [], s, 0))
  {
    hide Walk, UntilDeadEnd, IsPath, EndsOnlyLast;
    var walk := Walk(types, [], s, 0);
    var visits := UntilDeadEnd(types, walk);
    CompleteIff(types, walk);
    WalkIsAllPaths(types, s);
    if visits != walk {
      var missed := walk[|visits|];
      assert missed in walk;
      forall k | 0 <= k < |visits| ensures visits[k] != missed {
        assert visits[k] == walk[k];
      }
      assert IsPath(types, s, missed) && missed !in visits;
    }
  }

  /** A structure whose first member is of an empty structure type: its second member gets no rule. */
  lemma EmptyMemberHidesTheNext()
    ensures exists types: Types, s: nat, p: Path ::
              Finite(types) && s < |types| && IsPath(types, s, p) && p[0].hasAlternatives
              && p !in UntilDeadEnd(types, Walk(types, [], s, 0))
  {
    var first, second := Member(1, 0, Some(0), false), Member(1, 1, None, true);
    var types: Types := [[], [first, second]];
    var p := [second];
    assert second in types[1];
    assert [second][1..] == [];
    assert Finite(types) && IsPath(types, 1, p);
    assert Walk(types, [first], 0, 0) == [];
    assert Walk(types, [], 1, 2) == [];
    var walk := Walk(types, [], 1, 0);
    assert walk[0] == [] + [first];
    assert DeadEnd(types, walk[0]);
    assert UntilDeadEnd(types, walk) == [walk[0]];
    assert p[0] != walk[0][0];
  }
}
