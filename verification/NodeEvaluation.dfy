/**
 * Evaluation of syntax nodes that follows points-to links between them, with detection of loops
 * and a cache for evaluations without links.
 */
module NodeEvaluation {
  import opened Counting

  /** A node below another; array indices are evaluated without links. */
  datatype Kid = Kid(node: nat, keepsLinks: bool)

  /** The nodes whose expressions make up a node's own; casts are not kept in the cache. */
  datatype Node = Node(kids: seq<Kid>, caches: bool)

  type Graph = seq<Node>

  type Links = map<nat, nat>

  datatype Expr = Expr(node: nat, args: seq<Expr>)

  type Cache = map<nat, Expr>

  datatype Outcome = Value(expr: Expr) | Loop

  datatype KidsOutcome = Values(exprs: seq<Expr>) | LoopBelow

  datatype Step = Step(outcome: Outcome, cache: Cache)

  datatype KidsStep = KidsStep(outcome: KidsOutcome, cache: Cache)

  predicate Closed(g: Graph) {
    forall n, i :: 0 <= n < |g| && 0 <= i < |g[n].kids| ==> g[n].kids[i].node < |g|
  }

  predicate LinksInside(g: Graph, links: Links) {
    forall n :: n in links ==> links[n] < |g|
  }

  /** The nodes under evaluation: none twice. */
  predicate ValidStack(g: Graph, stack: seq<nat>) { Distinct(stack) && Below(stack, |g|) }

  lemma Push(g: Graph, stack: seq<nat>, n: nat)
    requires ValidStack(g, stack) && n < |g| && n !in stack
    ensures ValidStack(g, stack + [n]) && |stack| < |g|
  {
    DistinctBelow(stack + [n], |g|);
  }

  /** A second visit of a node under evaluation is tried once more without links, or else is an error. */
  function Eval(g: Graph, cache: Cache, stack: seq<nat>, n: nat, links: Links): Step
    requires Closed(g) && LinksInside(g, links) && ValidStack(g, stack) && n < |g|
    decreases if links == map[] then 0 else 1, |g| - |stack|, |g|, 0
  {
    if n in stack then
      (if links == map[] then Step(Loop, cache) else Step(Eval(g, map[], [], n, map[]).outcome, cache))
    else
      Push(g, stack, n);
      if links == map[] && n in cache then Step(Value(cache[n]), cache)
      else if n in links then Eval(g, cache, stack + [n], links[n], links)
      else
        var kids := EvalKids(g, cache, stack + [n], n, |g[n].kids|, links);
        match kids.outcome
        case LoopBelow => Step(Loop, kids.cache)
        case Values(exprs) =>
          var e := Expr(n, exprs);
          Step(Value(e), if links == map[] && g[n].caches then kids.cache[n := e] else kids.cache)
  }

  /** The first `k` kids of a node, in order, up to the first error. */
  function EvalKids(g: Graph, cache: Cache, stack: seq<nat>, n: nat, k: nat, links: Links): KidsStep
    requires Closed(g) && LinksInside(g, links) && ValidStack(g, stack) && n < |g| && k <= |g[n].kids| && |stack| <= |g|
    decreases if links == map[] then 0 else 1, |g| - |stack|, |g| + 1, k
  {
    if k == 0 then KidsStep(Values([]), cache)
    else
      var before := EvalKids(g, cache, stack, n, k - 1, links);
      if before.outcome.LoopBelow? then before
      else
        var kid := g[n].kids[k - 1];
        var last := Eval(g, before.cache, stack, kid.node, if kid.keepsLinks then links else map[]);
        match last.outcome
        case Loop => KidsStep(LoopBelow, last.cache)
        case Value(e) => KidsStep(Values(before.outcome.exprs + [e]), last.cache)
  }

  // ---- What an evaluation without links means ----

  /** The expression is the syntax below a node, written out. */
  predicate Unfolds(g: Graph, n: nat, e: Expr)
    decreases e
  {
    n < |g| && e.node == n && |e.args| == |g[n].kids|
    && forall i :: 0 <= i < |e.args| ==> Unfolds(g, g[n].kids[i].node, e.args[i])
  }

  lemma {:induction false} UnfoldsUnique(g: Graph, n: nat, e: Expr, f: Expr)
    requires Unfolds(g, n, e) && Unfolds(g, n, f)
    ensures e == f
    decreases e
  {
    forall i | 0 <= i < |e.args| ensures e.args[i] == f.args[i] {
      UnfoldsUnique(g, g[n].kids[i].node, e.args[i], f.args[i]);
    }
    assert e.args == f.args;
  }

  predicate Sound(g: Graph, cache: Cache) {
    forall n :: n in cache ==> Unfolds(g, n, cache[n])
  }

  lemma {:induction false} EmptyEval(g: Graph, cache: Cache, stack: seq<nat>, n: nat)
    requires Closed(g) && ValidStack(g, stack) && n < |g| && Sound(g, cache)
    ensures Sound(g, Eval(g, cache, stack, n, map[]).cache)
    ensures Eval(g, cache, stack, n, map[]).outcome.Value? ==>
              Unfolds(g, n, Eval(g, cache, stack, n, map[]).outcome.expr)
    decreases |g| - |stack|, |g|, 0
  {
    if n !in stack && n !in cache {
      Push(g, stack, n);
      EmptyEvalKids(g, cache, stack + [n], n, |g[n].kids|);
    }
  }

  lemma {:induction false} EmptyEvalKids(g: Graph, cache: Cache, stack: seq<nat>, n: nat, k: nat)
    requires Closed(g) && ValidStack(g, stack) && n < |g| && k <= |g[n].kids| && |stack| <= |g| && Sound(g, cache)
    ensures Sound(g, EvalKids(g, cache, stack, n, k, map[]).cache)
    ensures var o := EvalKids(g, cache, stack, n, k, map[]).outcome;
            o.Values? ==> |o.exprs| == k && forall i :: 0 <= i < k ==> Unfolds(g, g[n].kids[i].node, o.exprs[i])
    decreases |g| - |stack|, |g| + 1, k
  {
    if k > 0 {
      EmptyEvalKids(g, cache, stack, n, k - 1);
      var before := EvalKids(g, cache, stack, n, k - 1, map[]);
      if before.outcome.Values? {
        EmptyEval(g, before.cache, stack, g[n].kids[k - 1].node);
      }
    }
  }

  /** What an evaluation adds to the cache: nothing is lost, and only nodes that are kept are added. */
  ghost predicate Grown(g: Graph, before: Cache, after: Cache) {
    && (forall n :: n in before ==> n in after)
    && (forall n :: n in after && n !in before ==> n < |g| && g[n].caches)
  }

  lemma GrownTwice(g: Graph, a: Cache, b: Cache, c: Cache)
    requires Grown(g, a, b) && Grown(g, b, c)
    ensures Grown(g, a, c)
  {
  }

  lemma AddedOne(g: Graph, before: Cache, after: Cache, n: nat, e: Expr)
    requires Grown(g, before, after) && n < |g| && g[n].caches
    ensures Grown(g, before, after[n := e])
  {
  }

  /** An evaluation without links keeps its value in the cache, unless the node is a cast. */
  lemma {:induction false} CacheGrows(g: Graph, cache: Cache, stack: seq<nat>, n: nat, links: Links)
    requires Closed(g) && LinksInside(g, links) && ValidStack(g, stack) && n < |g|
    ensures Grown(g, cache, Eval(g, cache, stack, n, links).cache)
    ensures var s := Eval(g, cache, stack, n, links);
            links == map[] && s.outcome.Value? && g[n].caches ==> n in s.cache && s.cache[n] == s.outcome.expr
    decreases if links == map[] then 0 else 1, |g| - |stack|, |g|, 0
  {
    hide Grown;
    NothingAdded(g, cache);
    if n !in stack && (links != map[] || n !in cache) {
      Push(g, stack, n);
      if n in links {
        CacheGrows(g, cache, stack + [n], links[n], links);
      } else {
        CacheGrowsBelow(g, cache, stack + [n], n, |g[n].kids|, links);
        var kids := EvalKids(g, cache, stack + [n], n, |g[n].kids|, links);
        if links == map[] && kids.outcome.Values? && g[n].caches {
          AddedOne(g, cache, kids.cache, n, Expr(n, kids.outcome.exprs));
        }
      }
    }
  }

  lemma {:induction false} CacheGrowsBelow(g: Graph, cache: Cache, stack: seq<nat>, n: nat, k: nat, links: Links)
    requires Closed(g) && LinksInside(g, links) && ValidStack(g, stack) && n < |g| && k <= |g[n].kids| && |stack| <= |g|
    ensures Grown(g, cache, EvalKids(g, cache, stack, n, k, links).cache)
    decreases if links == map[] then 0 else 1, |g| - |stack|, |g| + 1, k
  {
    hide Grown;
    if k == 0 {
      NothingAdded(g, cache);
    } else {
      CacheGrowsBelow(g, cache, stack, n, k - 1, links);
      var before := EvalKids(g, cache, stack, n, k - 1, links);
      if before.outcome.Values? {
        var kid := g[n].kids[k - 1];
        var kidLinks := if kid.keepsLinks then links else map[];
        CacheGrows(g, before.cache, stack, kid.node, kidLinks);
        GrownTwice(g, cache, before.cache, Eval(g, before.cache, stack, kid.node, kidLinks).cache);
      }
    }
  }

  lemma NothingAdded(g: Graph, cache: Cache)
    ensures Grown(g, cache, cache)
  {
  }

  // ---- Loops ----

  predicate Edge(g: Graph, a: nat, b: nat) {
    a < |g| && exists i :: 0 <= i < |g[a].kids| && g[a].kids[i].node == b
  }

  predicate Path(g: Graph, p: seq<nat>) {
    p != [] && Below(p, |g|) && forall i :: 0 <= i < |p| - 1 ==> Edge(g, p[i], p[i + 1])
  }

  /** Some way down from the node comes to a node twice. */
  ghost predicate Loops(g: Graph, n: nat) {
    exists p: seq<nat> :: Path(g, p) && p[0] == n && !Distinct(p)
  }

  function Size(e: Expr): nat { 1 + Sizes(e.args) }

  function Sizes(es: seq<Expr>): nat { if es == [] then 0 else Size(es[0]) + Sizes(es[1..]) }

  lemma {:induction false} ArgIsSmaller(es: seq<Expr>, i: nat)
    requires i < |es|
    ensures Size(es[i]) <= Sizes(es)
  {
    if i > 0 { ArgIsSmaller(es[1..], i - 1); }
  }

  /** Unfolding along a path gets smaller with every step. */
  lemma {:induction false} PathShrinks(g: Graph, p: seq<nat>, e: Expr) returns (f: Expr)
    requires Path(g, p) && Unfolds(g, p[0], e)
    ensures Unfolds(g, p[|p| - 1], f) && Size(f) + |p| - 1 <= Size(e)
    decreases |p|
  {
    if |p| == 1 {
      f := e;
    } else {
      assert Edge(g, p[0], p[0 + 1]);
      var i :| 0 <= i < |g[p[0]].kids| && g[p[0]].kids[i].node == p[1];
      ArgIsSmaller(e.args, i);
      PathTail(g, p);
      f := PathShrinks(g, p[1..], e.args[i]);
    }
  }

  lemma PathTail(g: Graph, p: seq<nat>)
    requires Path(g, p) && |p| > 1
    ensures Path(g, p[1..])
  {
    var t := p[1..];
    forall i | 0 <= i < |t| - 1 ensures Edge(g, t[i], t[i + 1]) {
      assert Edge(g, p[i + 1], p[i + 1 + 1]);
    }
  }

  lemma PathPart(g: Graph, p: seq<nat>, i: nat, j: nat)
    requires Path(g, p) && i < j <= |p|
    ensures Path(g, p[i..j])
  {
    var t := p[i..j];
    forall k | 0 <= k < |t| - 1 ensures Edge(g, t[k], t[k + 1]) {
      assert Edge(g, p[i + k], p[i + k + 1]);
    }
  }

  lemma ReturnShrinks(g: Graph, p: seq<nat>, e: Expr)
    requires Path(g, p) && |p| > 1 && p[0] == p[|p| - 1]
    ensures !Unfolds(g, p[0], e)
  {
    hide Unfolds, Path;
    if Unfolds(g, p[0], e) {
      var f := PathShrinks(g, p, e);
      UnfoldsUnique(g, p[0], e, f);
    }
  }

  /** What can be written out has no loop. */
  lemma UnfoldsWithoutLoop(g: Graph, n: nat, e: Expr)
    requires Unfolds(g, n, e)
    ensures !Loops(g, n)
  {
    hide Unfolds;
    if Loops(g, n) {
      var p: seq<nat> :| Path(g, p) && p[0] == n && !Distinct(p);
      var i, j :| 0 <= i < j < |p| && p[i] == p[j];
      PathPart(g, p, 0, i + 1);
      var a := PathShrinks(g, p[0..i + 1], e);
      PathPart(g, p, i, j + 1);
      ReturnShrinks(g, p[i..j + 1], a);
    }
  }

  lemma PathExtends(g: Graph, p: seq<nat>, n: nat)
    requires Path(g, p) && Edge(g, p[|p| - 1], n) && n < |g|
    ensures Path(g, p + [n])
  {
    var q := p + [n];
    forall i | 0 <= i < |q| - 1 ensures Edge(g, q[i], q[i + 1]) {
      if i < |p| - 1 { assert Edge(g, p[i], p[i + 1]); }
    }
  }

  /** An error is raised only for a way down that comes to a node twice. */
  lemma {:induction false} ErrorShowsLoop(g: Graph, cache: Cache, stack: seq<nat>, n: nat)
    requires Closed(g) && ValidStack(g, stack) && n < |g| && Path(g, stack + [n])
    requires Eval(g, cache, stack, n, map[]).outcome.Loop?
    ensures Loops(g, (stack + [n])[0])
    decreases |g| - |stack|, |g|, 0
  {
    if n in stack {
      var i :| 0 <= i < |stack| && stack[i] == n;
      assert (stack + [n])[i] == (stack + [n])[|stack|];
    } else {
      Push(g, stack, n);
      ErrorBelowShowsLoop(g, cache, stack + [n], n, |g[n].kids|);
    }
  }

  lemma {:induction false} ErrorBelowShowsLoop(g: Graph, cache: Cache, stack: seq<nat>, n: nat, k: nat)
    requires Closed(g) && ValidStack(g, stack) && n < |g| && k <= |g[n].kids| && |stack| <= |g|
    requires Path(g, stack) && stack[|stack| - 1] == n
    requires EvalKids(g, cache, stack, n, k, map[]).outcome.LoopBelow?
    ensures Loops(g, stack[0])
    decreases |g| - |stack|, |g| + 1, k
  {
    var before := EvalKids(g, cache, stack, n, k - 1, map[]);
    if before.outcome.LoopBelow? {
      ErrorBelowShowsLoop(g, cache, stack, n, k - 1);
    } else {
      var kid := g[n].kids[k - 1].node;
      assert Edge(g, n, kid);
      PathExtends(g, stack, kid);
      ErrorShowsLoop(g, before.cache, stack, kid);
    }
  }

  /** Without links and with nothing under evaluation, evaluation fails exactly if the syntax loops. */
  lemma ErrorIffLoop(g: Graph, cache: Cache, n: nat)
    requires Closed(g) && n < |g| && Sound(g, cache)
    ensures Eval(g, cache, [], n, map[]).outcome.Loop? <==> Loops(g, n)
    ensures Eval(g, cache, [], n, map[]).outcome.Value? ==> Unfolds(g, n, Eval(g, cache, [], n, map[]).outcome.expr)
  {
    hide Eval, Loops, Unfolds;
    EmptyEval(g, cache, [], n);
    var o := Eval(g, cache, [], n, map[]).outcome;
    if o.Loop? {
      assert [] + [n] == [n];
      ErrorShowsLoop(g, cache, [], n);
    } else {
      UnfoldsWithoutLoop(g, n, o.expr);
    }
  }

  // ---- Following links ----

  ghost predicate Reaches(g: Graph, n: nat, m: nat) {
    exists p: seq<nat> :: Path(g, p) && p[0] == n && p[|p| - 1] == m
  }

  lemma ReachesFurther(g: Graph, n: nat, kid: nat, m: nat)
    requires Closed(g) && Edge(g, n, kid) && Reaches(g, kid, m)
    ensures Reaches(g, n, m)
    ensures m == n ==> Loops(g, n)
  {
    var p: seq<nat> :| Path(g, p) && p[0] == kid && p[|p| - 1] == m;
    var q := [n] + p;
    forall i | 0 <= i < |q| - 1 ensures Edge(g, q[i], q[i + 1]) {
      if i > 0 { assert Edge(g, p[i - 1], p[i - 1 + 1]); }
    }
    assert Path(g, q) && q[0] == n && q[|q| - 1] == m;
    if m == n {
      assert !Distinct(q);
    }
  }

  /** Without links: no error if nothing under evaluation can be reached and the syntax ends. */
  lemma {:induction false} NoErrorBelow(g: Graph, cache: Cache, stack: seq<nat>, n: nat, e: Expr)
    requires Closed(g) && ValidStack(g, stack) && n < |g| && Unfolds(g, n, e)
    requires forall m :: m in stack ==> !Reaches(g, n, m)
    ensures Eval(g, cache, stack, n, map[]).outcome.Value?
    decreases |g| - |stack|, |g|, 0
  {
    assert Path(g, [n]);
    assert Reaches(g, n, n);
    if n !in stack {
      Push(g, stack, n);
      UnfoldsWithoutLoop(g, n, e);
      hide Loops, Reaches, Unfolds;
      forall m, i | m in stack + [n] && 0 <= i < |g[n].kids| ensures !Reaches(g, g[n].kids[i].node, m) {
        assert Edge(g, n, g[n].kids[i].node);
        if Reaches(g, g[n].kids[i].node, m) {
          ReachesFurther(g, n, g[n].kids[i].node, m);
        }
      }
      NoErrorBelowKids(g, cache, stack + [n], n, |g[n].kids|, e);
    }
  }

  lemma {:induction false} NoErrorBelowKids(g: Graph, cache: Cache, stack: seq<nat>, n: nat, k: nat, e: Expr)
    requires Closed(g) && ValidStack(g, stack) && n < |g| && k <= |g[n].kids| && |stack| <= |g| && Unfolds(g, n, e)
    requires forall m, i :: m in stack && 0 <= i < |g[n].kids| ==> !Reaches(g, g[n].kids[i].node, m)
    ensures EvalKids(g, cache, stack, n, k, map[]).outcome.Values?
    decreases |g| - |stack|, |g| + 1, k
  {
    if k > 0 {
      NoErrorBelowKids(g, cache, stack, n, k - 1, e);
      var before := EvalKids(g, cache, stack, n, k - 1, map[]);
      NoErrorBelow(g, before.cache, stack, g[n].kids[k - 1].node, e.args[k - 1]);
    }
  }

  /** One step down while links are followed: a linked node only leads to what it points to. */
  predicate Leads(g: Graph, links: Links, a: nat, b: nat) {
    a < |g| && if a in links then b == links[a]
               else exists i :: 0 <= i < |g[a].kids| && g[a].kids[i].keepsLinks && g[a].kids[i].node == b
  }

  ghost predicate LinkReaches(g: Graph, links: Links, a: nat, b: nat) {
    exists p: seq<nat> :: p != [] && p[0] == a && p[|p| - 1] == b
      && forall i :: 0 <= i < |p| - 1 ==> Leads(g, links, p[i], p[i + 1])
  }

  lemma LinkReachesItself(g: Graph, links: Links, a: nat)
    ensures LinkReaches(g, links, a, a)
  {
    assert [a][0] == a;
  }

  lemma LinkReachesOn(g: Graph, links: Links, a: nat, b: nat, c: nat)
    requires LinkReaches(g, links, a, b) && Leads(g, links, b, c)
    ensures LinkReaches(g, links, a, c)
  {
    var p: seq<nat> :| p != [] && p[0] == a && p[|p| - 1] == b
                       && forall i :: 0 <= i < |p| - 1 ==> Leads(g, links, p[i], p[i + 1]);
    var q := p + [c];
    forall i | 0 <= i < |q| - 1 ensures Leads(g, links, q[i], q[i + 1]) {
      if i < |p| - 1 { assert Leads(g, links, p[i], p[i + 1]); }
    }
    assert q[0] == a && q[|q| - 1] == c;
  }

  /** The array index below `x` contains a node from which following links comes to `x`. */
  ghost predicate Detour(g: Graph, links: Links, x: nat, i: nat, m: nat) {
    x < |g| && x !in links && i < |g[x].kids| && !g[x].kids[i].keepsLinks
    && Reaches(g, g[x].kids[i].node, m) && LinkReaches(g, links, m, x)
  }

  ghost predicate NoDetours(g: Graph, links: Links) {
    forall x: nat, i: nat, m: nat :: !Detour(g, links, x, i, m)
  }

  /** The syntax itself is a tree, or at least has no loops. */
  ghost predicate LoopFree(g: Graph) {
    forall n: nat :: n < |g| ==> !Loops(g, n)
  }

  ghost predicate AllLead(g: Graph, links: Links, stack: seq<nat>, n: nat) {
    forall m :: m in stack ==> LinkReaches(g, links, m, n)
  }

  lemma AllLeadOn(g: Graph, links: Links, stack: seq<nat>, n: nat, next: nat)
    requires AllLead(g, links, stack, n) && Leads(g, links, n, next)
    ensures AllLead(g, links, stack + [n], next)
  {
    hide LinkReaches, Leads;
    LinkReachesItself(g, links, n);
    forall m | m in stack + [n] ensures LinkReaches(g, links, m, next) {
      LinkReachesOn(g, links, m, n, next);
    }
  }

  /** Links may form loops as they like: no error is raised for them. */
  lemma {:induction false} LinksAreHarmless(g: Graph, cache: Cache, stack: seq<nat>, n: nat, links: Links)
    requires Closed(g) && LinksInside(g, links) && ValidStack(g, stack) && n < |g| && links != map[]
    requires LoopFree(g) && NoDetours(g, links) && AllLead(g, links, stack, n)
    ensures Eval(g, cache, stack, n, links).outcome.Value?
    decreases |g| - |stack|, |g|, 0
  {
    hide Loops, NoDetours, AllLead;
    if n in stack {
      ErrorIffLoop(g, map[], n);
    } else {
      Push(g, stack, n);
      if n in links {
        assert Leads(g, links, n, links[n]);
        AllLeadOn(g, links, stack, n, links[n]);
        LinksAreHarmless(g, cache, stack + [n], links[n], links);
      } else {
        LinksAreHarmlessBelow(g, cache, stack, n, |g[n].kids|, links);
      }
    }
  }

  lemma {:induction false} LinksAreHarmlessBelow(g: Graph, cache: Cache, stack: seq<nat>, n: nat, k: nat, links: Links)
    requires Closed(g) && LinksInside(g, links) && ValidStack(g, stack) && n < |g| && links != map[] && n !in stack
    requires ValidStack(g, stack + [n]) && |stack| < |g| && n !in links && k <= |g[n].kids|
    requires LoopFree(g) && NoDetours(g, links) && AllLead(g, links, stack, n)
    ensures EvalKids(g, cache, stack + [n], n, k, links).outcome.Values?
    decreases |g| - |stack| - 1, |g| + 1, k
  {
    hide Loops, NoDetours, AllLead, LoopFree;
    if k > 0 {
      LinksAreHarmlessBelow(g, cache, stack, n, k - 1, links);
      var before := EvalKids(g, cache, stack + [n], n, k - 1, links);
      var kid := g[n].kids[k - 1];
      if kid.keepsLinks {
        assert Leads(g, links, n, kid.node);
        AllLeadOn(g, links, stack, n, kid.node);
        LinksAreHarmless(g, before.cache, stack + [n], kid.node, links);
      } else {
        IndexIsHarmless(g, before.cache, stack, n, k - 1, links);
      }
    }
  }

  lemma IndexIsHarmless(g: Graph, cache: Cache, stack: seq<nat>, n: nat, i: nat, links: Links)
    requires Closed(g) && ValidStack(g, stack + [n]) && n < |g| && n !in links && i < |g[n].kids|
              && !g[n].kids[i].keepsLinks
    requires LoopFree(g) && NoDetours(g, links) && AllLead(g, links, stack, n)
    ensures Eval(g, cache, stack + [n], g[n].kids[i].node, map[]).outcome.Value?
  {
    hide Eval, Loops, Unfolds, Reaches, LinkReaches;
    var kid := g[n].kids[i].node;
    LinkReachesItself(g, links, n);
    ErrorIffLoop(g, map[], kid);
    forall m | m in stack + [n] ensures !Reaches(g, kid, m) {
      assert !Detour(g, links, n, i, m);
    }
    NoErrorBelow(g, cache, stack + [n], kid, Eval(g, map[], [], kid, map[]).outcome.expr);
  }

  /** Starting afresh, evaluation with links succeeds on any loop-free syntax without detours. */
  lemma LinkedEvaluationSucceeds(g: Graph, cache: Cache, n: nat, links: Links)
    requires Closed(g) && LinksInside(g, links) && n < |g| && Sound(g, cache)
    requires LoopFree(g) && NoDetours(g, links)
    ensures Eval(g, cache, [], n, links).outcome.Value?
  {
    if links == map[] {
      ErrorIffLoop(g, cache, n);
    } else {
      LinksAreHarmless(g, cache, [], n, links);
    }
  }

  /** There are no detours without array indices, whatever the links are. */
  lemma NoIndexNoDetour(g: Graph, links: Links)
    requires forall x, i :: 0 <= x < |g| && 0 <= i < |g[x].kids| ==> g[x].kids[i].keepsLinks
    ensures NoDetours(g, links)
  {
  }

  // ---- A detour is always an error for some start ----

  /** No cached node leads down to `m`. */
  ghost predicate Clean(g: Graph, cache: Cache, m: nat) {
    forall k :: k in cache ==> !Reaches(g, k, m)
  }

  lemma ReachesByKid(g: Graph, n: nat, m: nat)
    requires Reaches(g, n, m) && n != m
    ensures n < |g| && exists i :: 0 <= i < |g[n].kids| && Reaches(g, g[n].kids[i].node, m)
  {
    var p: seq<nat> :| Path(g, p) && p[0] == n && p[|p| - 1] == m;
    assert Edge(g, p[0], p[0 + 1]);
    var i :| 0 <= i < |g[n].kids| && g[n].kids[i].node == p[1];
    PathTail(g, p);
    assert p[1..][0] == p[1] && p[1..][|p| - 2] == m;
    assert Reaches(g, g[n].kids[i].node, m);
  }

  lemma {:induction false} EmptyKeepsClean(g: Graph, cache: Cache, stack: seq<nat>, n: nat, m: nat)
    requires Closed(g) && ValidStack(g, stack) && n < |g| && m in stack && Clean(g, cache, m)
    ensures Clean(g, Eval(g, cache, stack, n, map[]).cache, m)
    ensures Reaches(g, n, m) ==> Eval(g, cache, stack, n, map[]).outcome.Loop?
    decreases |g| - |stack|, |g|, 0
  {
    hide Reaches;
    if n !in stack && n !in cache {
      Push(g, stack, n);
      EmptyKeepsCleanKids(g, cache, stack + [n], n, |g[n].kids|, m);
      if Reaches(g, n, m) {
        ReachesByKid(g, n, m);
      }
    }
  }

  lemma {:induction false} EmptyKeepsCleanKids(g: Graph, cache: Cache, stack: seq<nat>, n: nat, k: nat, m: nat)
    requires Closed(g) && ValidStack(g, stack) && n < |g| && k <= |g[n].kids| && |stack| <= |g|
    requires m in stack && Clean(g, cache, m)
    ensures Clean(g, EvalKids(g, cache, stack, n, k, map[]).cache, m)
    ensures (exists i :: 0 <= i < k && Reaches(g, g[n].kids[i].node, m)) ==>
              EvalKids(g, cache, stack, n, k, map[]).outcome.LoopBelow?
    decreases |g| - |stack|, |g| + 1, k
  {
    hide Reaches, Clean, Eval;
    if k > 0 {
      EmptyKeepsCleanKids(g, cache, stack, n, k - 1, m);
      var before := EvalKids(g, cache, stack, n, k - 1, map[]);
      EmptyKeepsClean(g, before.cache, stack, g[n].kids[k - 1].node, m);
    }
  }

  lemma {:induction false} LinkKeepsClean(g: Graph, cache: Cache, stack: seq<nat>, n: nat, links: Links, m: nat)
    requires Closed(g) && LinksInside(g, links) && ValidStack(g, stack) && n < |g| && links != map[]
    requires m in stack && Clean(g, cache, m)
    ensures Clean(g, Eval(g, cache, stack, n, links).cache, m)
    decreases |g| - |stack|, |g|, 0
  {
    hide Clean;
    if n !in stack {
      Push(g, stack, n);
      if n in links {
        LinkKeepsClean(g, cache, stack + [n], links[n], links, m);
      } else {
        LinkKeepsCleanKids(g, cache, stack + [n], n, |g[n].kids|, links, m);
      }
    }
  }

  lemma {:induction false} LinkKeepsCleanKids(g: Graph, cache: Cache, stack: seq<nat>, n: nat, k: nat, links: Links,
                                              m: nat)
    requires Closed(g) && LinksInside(g, links) && ValidStack(g, stack) && n < |g| && k <= |g[n].kids| && |stack| <= |g|
    requires links != map[] && m in stack && Clean(g, cache, m)
    ensures Clean(g, EvalKids(g, cache, stack, n, k, links).cache, m)
    decreases |g| - |stack|, |g| + 1, k
  {
    hide Clean, Eval;
    if k > 0 {
      LinkKeepsCleanKids(g, cache, stack, n, k - 1, links, m);
      var before := EvalKids(g, cache, stack, n, k - 1, links);
      var kid := g[n].kids[k - 1];
      if kid.keepsLinks {
        LinkKeepsClean(g, before.cache, stack, kid.node, links, m);
      } else {
        EmptyKeepsClean(g, before.cache, stack, kid.node, m);
      }
    }
  }

  ghost predicate LinkPath(g: Graph, links: Links, p: seq<nat>) {
    p != [] && Below(p, |g|) && forall i :: 0 <= i < |p| - 1 ==> Leads(g, links, p[i], p[i + 1])
  }

  lemma {:induction false} SimpleLinkPath(g: Graph, links: Links, p: seq<nat>) returns (q: seq<nat>)
    requires LinkPath(g, links, p)
    ensures LinkPath(g, links, q) && Distinct(q) && q[0] == p[0] && q[|q| - 1] == p[|p| - 1]
    decreases |p|
  {
    if Distinct(p) {
      q := p;
    } else {
      var i, j :| 0 <= i < j < |p| && p[i] == p[j];
      CutLinkPath(g, links, p, i, j);
      q := SimpleLinkPath(g, links, p[..i] + p[j..]);
    }
  }

  lemma CutLinkPath(g: Graph, links: Links, p: seq<nat>, i: nat, j: nat)
    requires LinkPath(g, links, p) && i < j < |p| && p[i] == p[j]
    ensures var c := p[..i] + p[j..]; LinkPath(g, links, c) && c[0] == p[0] && c[|c| - 1] == p[|p| - 1]
  {
    hide Leads;
    var c := p[..i] + p[j..];
    forall k | 0 <= k < |c| - 1 ensures Leads(g, links, c[k], c[k + 1]) {
      if k < i {
        assert Leads(g, links, p[k], p[k + 1]);
      } else {
        assert Leads(g, links, p[k + (j - i)], p[k + (j - i) + 1]);
      }
    }
  }

  /** A kid that fails for every clean cache makes its node fail. */
  lemma KidFails(g: Graph, cache: Cache, stack: seq<nat>, n: nat, j: nat, links: Links, m: nat)
    requires Closed(g) && LinksInside(g, links) && ValidStack(g, stack) && n < |g| && j < |g[n].kids| && |stack| <= |g|
    requires links != map[] && m in stack && Clean(g, cache, m)
    requires forall c: Cache :: Clean(g, c, m) ==>
               Eval(g, c, stack, g[n].kids[j].node, if g[n].kids[j].keepsLinks then links else map[]).outcome.Loop?
    ensures EvalKids(g, cache, stack, n, |g[n].kids|, links).outcome.LoopBelow?
  {
    hide Clean, Eval;
    LinkKeepsCleanKids(g, cache, stack, n, j, links, m);
    KidsStop(g, cache, stack, n, j + 1, |g[n].kids|, links);
  }

  lemma {:induction false} DetourFails(g: Graph, cache: Cache, stack: seq<nat>, p: seq<nat>, links: Links, i: nat,
                                       m: nat)
    requires Closed(g) && LinksInside(g, links) && ValidStack(g, stack) && links != map[] && Clean(g, cache, m)
    requires LinkPath(g, links, p) && Distinct(p) && forall k :: 0 <= k < |p| ==> p[k] !in stack
    requires m in stack || m == p[0]
    requires Detour(g, links, p[|p| - 1], i, m)
    ensures Eval(g, cache, stack, p[0], links).outcome.Loop?
    decreases |p|
  {
    hide Clean, Leads, LinkReaches, Reaches;
    var n, inner := p[0], stack + [p[0]];
    Push(g, stack, n);
    if |p| == 1 {
      forall c: Cache | Clean(g, c, m) ensures Eval(g, c, inner, g[n].kids[i].node, map[]).outcome.Loop? {
        EmptyKeepsClean(g, c, inner, g[n].kids[i].node, m);
      }
      KidFails(g, cache, inner, n, i, links, m);
    } else {
      LinkPathTail(g, links, p);
      assert p[1..][|p| - 2] == p[|p| - 1];
      forall c: Cache | Clean(g, c, m) ensures Eval(g, c, inner, p[1], links).outcome.Loop? {
        DetourFails(g, c, inner, p[1..], links, i, m);
      }
      if n !in links {
        var j := KidOf(g, links, n, p[1]);
        KidFails(g, cache, inner, n, j, links, m);
      } else {
        LinkOf(g, links, n, p[1]);
      }
    }
  }

  lemma LinkPathTail(g: Graph, links: Links, p: seq<nat>)
    requires LinkPath(g, links, p) && |p| > 1 && Distinct(p)
    ensures LinkPath(g, links, p[1..]) && Distinct(p[1..]) && Leads(g, links, p[0], p[1])
    ensures forall k :: 0 <= k < |p| - 1 ==> p[1..][k] != p[0]
  {
    hide Leads;
    assert Leads(g, links, p[0], p[0 + 1]);
    var t := p[1..];
    forall i | 0 <= i < |t| - 1 ensures Leads(g, links, t[i], t[i + 1]) {
      assert Leads(g, links, p[i + 1], p[i + 1 + 1]);
    }
  }

  lemma KidOf(g: Graph, links: Links, n: nat, next: nat) returns (j: nat)
    requires Leads(g, links, n, next) && n !in links
    ensures n < |g| && j < |g[n].kids| && g[n].kids[j].keepsLinks && g[n].kids[j].node == next
  {
    j :| j < |g[n].kids| && g[n].kids[j].keepsLinks && g[n].kids[j].node == next;
  }

  lemma LinkOf(g: Graph, links: Links, n: nat, next: nat)
    requires Leads(g, links, n, next) && n in links
    ensures links[n] == next
  {
  }

  /**
   * On loop-free syntax, evaluation with links succeeds from every node exactly if no array index
   * contains a node from which the links lead back to the array.
   */
  lemma SucceedsIffNoDetour(g: Graph, links: Links)
    requires Closed(g) && LinksInside(g, links) && LoopFree(g) && links != map[]
    ensures (forall n: nat :: n < |g| ==> Eval(g, map[], [], n, links).outcome.Value?) <==> NoDetours(g, links)
  {
    hide Eval, LoopFree;
    if NoDetours(g, links) {
      FreshIsSound(g);
      forall n: nat | n < |g| ensures Eval(g, map[], [], n, links).outcome.Value? {
        LinkedEvaluationSucceeds(g, map[], n, links);
      }
    } else {
      var x: nat, i: nat, m: nat :| Detour(g, links, x, i, m);
      DetourHasFailingStart(g, links, x, i, m);
    }
  }

  lemma DetourHasFailingStart(g: Graph, links: Links, x: nat, i: nat, m: nat)
    requires Closed(g) && LinksInside(g, links) && links != map[] && Detour(g, links, x, i, m)
    ensures m < |g| && Eval(g, map[], [], m, links).outcome.Loop?
  {
    hide Eval;
    var p: seq<nat> :| p != [] && p[0] == m && p[|p| - 1] == x
                       && forall i :: 0 <= i < |p| - 1 ==> Leads(g, links, p[i], p[i + 1]);
    forall k | 0 <= k < |p| ensures p[k] < |g| {
      if k < |p| - 1 { assert Leads(g, links, p[k], p[k + 1]); }
    }
    var q := SimpleLinkPath(g, links, p);
    DetourFails(g, map[], [], q, links, i, m);
  }

  /** What an evaluation that follows links stands for; the cache has no part in it. */
  ghost predicate Expands(g: Graph, links: Links, stack: seq<nat>, n: nat, e: Expr)
    requires Closed(g) && LinksInside(g, links) && ValidStack(g, stack) && n < |g|
    decreases |g| - |stack|
  {
    if n in stack then Unfolds(g, n, e)
    else
      Push(g, stack, n);
      if n in links then Expands(g, links, stack + [n], links[n], e)
      else
        e.node == n && |e.args| == |g[n].kids|
        && forall i :: 0 <= i < |e.args| ==> KidExpands(g, links, stack, n, i, e.args[i])
  }

  ghost predicate KidExpands(g: Graph, links: Links, stack: seq<nat>, n: nat, i: nat, e: Expr)
    requires Closed(g) && LinksInside(g, links) && ValidStack(g, stack) && n < |g| && i < |g[n].kids| && n !in stack
    decreases |g| - |stack|, 0
  {
    Push(g, stack, n);
    if g[n].kids[i].keepsLinks then Expands(g, links, stack + [n], g[n].kids[i].node, e)
    else Unfolds(g, g[n].kids[i].node, e)
  }

  /** A value has its meaning whatever the cache held before, and the cache stays sound. */
  lemma {:induction false} LinkedEval(g: Graph, cache: Cache, stack: seq<nat>, n: nat, links: Links)
    requires Closed(g) && LinksInside(g, links) && ValidStack(g, stack) && n < |g| && Sound(g, cache) && links != map[]
    ensures Sound(g, Eval(g, cache, stack, n, links).cache)
    ensures Eval(g, cache, stack, n, links).outcome.Value? ==>
              Expands(g, links, stack, n, Eval(g, cache, stack, n, links).outcome.expr)
    decreases |g| - |stack|, |g|, 0
  {
    hide Sound, Unfolds, KidExpands;
    if n in stack {
      FreshIsSound(g);
      EmptyEval(g, map[], [], n);
    } else {
      Push(g, stack, n);
      if n in links {
        LinkedEval(g, cache, stack + [n], links[n], links);
      } else {
        LinkedEvalKids(g, cache, stack, n, |g[n].kids|, links);
      }
    }
  }

  lemma FreshIsSound(g: Graph)
    ensures Sound(g, map[])
  {
  }

  lemma {:induction false} LinkedEvalKids(g: Graph, cache: Cache, stack: seq<nat>, n: nat, k: nat, links: Links)
    requires Closed(g) && LinksInside(g, links) && ValidStack(g, stack) && n < |g| && Sound(g, cache) && links != map[]
    requires n !in stack && ValidStack(g, stack + [n]) && |stack| < |g| && k <= |g[n].kids|
    ensures Sound(g, EvalKids(g, cache, stack + [n], n, k, links).cache)
    ensures var o := EvalKids(g, cache, stack + [n], n, k, links).outcome;
            o.Values? ==> |o.exprs| == k && forall i :: 0 <= i < k ==> KidExpands(g, links, stack, n, i, o.exprs[i])
    decreases |g| - |stack| - 1, |g| + 1, k
  {
    hide Sound, Unfolds, Expands, Eval;
    if k > 0 {
      LinkedEvalKids(g, cache, stack, n, k - 1, links);
      var before := EvalKids(g, cache, stack + [n], n, k - 1, links);
      var kid := g[n].kids[k - 1];
      if kid.keepsLinks {
        LinkedEval(g, before.cache, stack + [n], kid.node, links);
      } else {
        EmptyEval(g, before.cache, stack + [n], kid.node);
      }
    }
  }

  /** What a value stands for determines it. */
  lemma {:induction false} ExpandsUnique(g: Graph, links: Links, stack: seq<nat>, n: nat, e: Expr, f: Expr)
    requires Closed(g) && LinksInside(g, links) && ValidStack(g, stack) && n < |g|
    requires Expands(g, links, stack, n, e) && Expands(g, links, stack, n, f)
    ensures e == f
    decreases |g| - |stack|, 1
  {
    if n in stack {
      UnfoldsUnique(g, n, e, f);
    } else {
      Push(g, stack, n);
      if n in links {
        ExpandsUnique(g, links, stack + [n], links[n], e, f);
      } else {
        forall i | 0 <= i < |e.args| ensures e.args[i] == f.args[i] {
          KidExpandsUnique(g, links, stack, n, i, e.args[i], f.args[i]);
        }
        assert e.args == f.args;
      }
    }
  }

  lemma {:induction false} KidExpandsUnique(g: Graph, links: Links, stack: seq<nat>, n: nat, i: nat, e: Expr, f: Expr)
    requires Closed(g) && LinksInside(g, links) && ValidStack(g, stack) && n < |g| && i < |g[n].kids| && n !in stack
    requires KidExpands(g, links, stack, n, i, e) && KidExpands(g, links, stack, n, i, f)
    ensures e == f
    decreases |g| - |stack|, 0
  {
    Push(g, stack, n);
    var kid := g[n].kids[i];
    if kid.keepsLinks {
      ExpandsUnique(g, links, stack + [n], kid.node, e, f);
    } else {
      UnfoldsUnique(g, kid.node, e, f);
    }
  }

  /** With whatever sound caches two evaluations start: if both yield a value, it is the same. */
  lemma ValueIsIndependentOfCache(g: Graph, c: Cache, d: Cache, stack: seq<nat>, n: nat, links: Links)
    requires Closed(g) && LinksInside(g, links) && ValidStack(g, stack) && n < |g| && Sound(g, c) && Sound(g, d)
    requires Eval(g, c, stack, n, links).outcome.Value? && Eval(g, d, stack, n, links).outcome.Value?
    ensures Eval(g, c, stack, n, links).outcome.expr == Eval(g, d, stack, n, links).outcome.expr
  {
    hide Eval, Unfolds, Expands, Sound;
    var e, f := Eval(g, c, stack, n, links).outcome.expr, Eval(g, d, stack, n, links).outcome.expr;
    if links == map[] {
      EmptyEval(g, c, stack, n);
      EmptyEval(g, d, stack, n);
      UnfoldsUnique(g, n, e, f);
    } else {
      LinkedEval(g, c, stack, n, links);
      LinkedEval(g, d, stack, n, links);
      ExpandsUnique(g, links, stack, n, e, f);
    }
  }

  /** Without array indices links do no harm at all. */
  lemma LinkedEvaluationWithoutIndices(g: Graph, cache: Cache, n: nat, links: Links)
    requires Closed(g) && LinksInside(g, links) && n < |g| && Sound(g, cache) && LoopFree(g)
    requires forall x, i :: 0 <= x < |g| && 0 <= i < |g[x].kids| ==> g[x].kids[i].keepsLinks
    ensures Eval(g, cache, [], n, links).outcome.Value?
  {
    hide Eval, LoopFree, Sound;
    NoIndexNoDetour(g, links);
    LinkedEvaluationSucceeds(g, cache, n, links);
  }

  // ---- The evaluator ----

  class Evaluator {
    const graph: Graph
    var evalNodeStack: seq<nat>
    var expressions: Cache

    constructor (g: Graph)
      ensures graph == g && evalNodeStack == [] && expressions == map[]
    {
      graph := g;
      evalNodeStack := [];
      expressions := map[];
    }

    /** Evaluates a node. An error leaves the stack as it was, like a value. */
    method ExprOfNode(n: nat, ptsTo: Links) returns (o: Outcome)
      requires Closed(graph) && LinksInside(graph, ptsTo) && ValidStack(graph, evalNodeStack) && n < |graph|
      modifies this
      ensures evalNodeStack == old(evalNodeStack)
      ensures Step(o, expressions) == Eval(graph, old(expressions), old(evalNodeStack), n, ptsTo)
      decreases if ptsTo == map[] then 0 else 1, |graph| - |evalNodeStack|, |graph|, 0
    {
      hide Eval, EvalKids;
      ghost var stack := evalNodeStack;
      var i := 0;
      while i < |evalNodeStack|
        invariant 0 <= i <= |evalNodeStack| && n !in evalNodeStack[..i]
      {
        if evalNodeStack[i] == n {
          EvalRevisit(graph, expressions, stack, n, ptsTo);
          if ptsTo != map[] {
            var other := new Evaluator(graph);
            o := other.ExprOfNode(n, map[]);
            return;
          } else {
            return Loop;
          }
        }
        i := i + 1;
      }
      Push(graph, stack, n);
      EvalVisit(graph, expressions, stack, n, ptsTo);
      if ptsTo == map[] && n in expressions {
        return Value(expressions[n]);
      }
      evalNodeStack := evalNodeStack + [n];
      if n in ptsTo {
        o := ExprOfNode(ptsTo[n], ptsTo);
      } else {
        var kids := ExprsOfKids(n, ptsTo);
        match kids {
          case LoopBelow => o := Loop;
          case Values(exprs) =>
            o := Value(Expr(n, exprs));
            if ptsTo == map[] && graph[n].caches {
              expressions := expressions[n := o.expr];
            }
        }
      }
      evalNodeStack := evalNodeStack[..|evalNodeStack| - 1];
    }

    /** Evaluates the nodes below a node in order; an error ends this at once. */
    method ExprsOfKids(n: nat, ptsTo: Links) returns (o: KidsOutcome)
      requires Closed(graph) && LinksInside(graph, ptsTo) && ValidStack(graph, evalNodeStack) && n < |graph|
      requires |evalNodeStack| <= |graph|
      modifies this
      ensures evalNodeStack == old(evalNodeStack)
      ensures KidsStep(o, expressions) ==
              EvalKids(graph, old(expressions), old(evalNodeStack), n, |graph[n].kids|, ptsTo)
      decreases if ptsTo == map[] then 0 else 1, |graph| - |evalNodeStack|, |graph| + 1, 0
    {
      var exprs: seq<Expr> := [];
      var k := 0;
      while k < |graph[n].kids|
        invariant 0 <= k <= |graph[n].kids| && evalNodeStack == old(evalNodeStack)
        invariant KidsStep(Values(exprs), expressions) == EvalKids(graph, old(expressions), evalNodeStack, n, k, ptsTo)
      {
        var kid := graph[n].kids[k];
        var r := ExprOfNode(kid.node, if kid.keepsLinks then ptsTo else map[]);
        if r.Loop? {
          KidsStop(graph, old(expressions), evalNodeStack, n, k + 1, |graph[n].kids|, ptsTo);
          return LoopBelow;
        }
        exprs := exprs + [r.expr];
        k := k + 1;
      }
      o := Values(exprs);
    }
  }

  lemma EvalRevisit(g: Graph, cache: Cache, stack: seq<nat>, n: nat, links: Links)
    requires Closed(g) && LinksInside(g, links) && ValidStack(g, stack) && n < |g| && n in stack
    ensures Eval(g, cache, stack, n, links) ==
            if links == map[] then Step(Loop, cache) else Step(Eval(g, map[], [], n, map[]).outcome, cache)
  {
  }

  lemma EvalVisit(g: Graph, cache: Cache, stack: seq<nat>, n: nat, links: Links)
    requires Closed(g) && LinksInside(g, links) && ValidStack(g, stack) && n < |g| && n !in stack
    ensures ValidStack(g, stack + [n]) && |stack| < |g|
    ensures Eval(g, cache, stack, n, links) ==
            if links == map[] && n in cache then Step(Value(cache[n]), cache)
            else if n in links then Eval(g, cache, stack + [n], links[n], links)
            else
              var kids := EvalKids(g, cache, stack + [n], n, |g[n].kids|, links);
              match kids.outcome
              case LoopBelow => Step(Loop, kids.cache)
              case Values(exprs) =>
                Step(Value(Expr(n, exprs)),
                     if links == map[] && g[n].caches then kids.cache[n := Expr(n, exprs)] else kids.cache)
  {
    Push(g, stack, n);
  }

  lemma {:induction false} KidsStop(g: Graph, cache: Cache, stack: seq<nat>, n: nat, k: nat, l: nat, links: Links)
    requires Closed(g) && LinksInside(g, links) && ValidStack(g, stack) && n < |g| && k <= l <= |g[n].kids|
              && |stack| <= |g|
    requires EvalKids(g, cache, stack, n, k, links).outcome.LoopBelow?
    ensures EvalKids(g, cache, stack, n, l, links) == EvalKids(g, cache, stack, n, k, links)
    decreases l
  {
    if k < l { KidsStop(g, cache, stack, n, k, l - 1, links); }
  }

  /** An array access (0) of an array (1) with an index (2). */
  function IndexSyntax(): Graph { [Node([Kid(1, true), Kid(2, false)], true), Node([], true), Node([], true)] }

  lemma IndexSyntaxEnds()
    ensures Closed(IndexSyntax()) && LoopFree(IndexSyntax())
  {
    var g, a, i := IndexSyntax(), Expr(1, []), Expr(2, []);
    hide Loops;
    UnfoldsWithoutLoop(g, 1, a);
    UnfoldsWithoutLoop(g, 2, i);
    UnfoldsWithoutLoop(g, 0, Expr(0, [a, i]));
  }

  /** As in `int i = a[i]` with a link from `i` to its initializer: an error without any loop in the syntax. */
  lemma IndexMayLoop()
    ensures exists g: Graph, links: Links ::
              Closed(g) && LinksInside(g, links) && LoopFree(g) && 2 < |g| && Eval(g, map[], [], 2, links).outcome.Loop?
  {
    hide Eval, LoopFree;
    IndexSyntaxEnds();
    var g, links := IndexSyntax(), map[2 := 0];
    var p: seq<nat> := [2];
    assert Path(g, p) && Reaches(g, 2, 2);
    var q: seq<nat> := [2, 0];
    assert Leads(g, links, q[0], q[1]);
    assert LinkReaches(g, links, 2, 0);
    DetourHasFailingStart(g, links, 0, 1, 2);
  }
}
