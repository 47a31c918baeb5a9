/**
 * Expanding the alternatives of an expression into the list of all alternative-free
 * expressions, and when that list is the right one.
 */
module Alternatives {
  import opened ExpressionTrees

  // ---- What is meant: one choice per node ----

  function WithOperands(e: Tree, ls: seq<Tree>, rs: seq<Tree>): seq<Tree>
    requires e.Binary?
  {
    if ls == [] then [] else WithLeft(e, ls[0], rs) + WithOperands(e, ls[1..], rs)
  }

  function WithLeft(e: Tree, l: Tree, rs: seq<Tree>): seq<Tree>
    requires e.Binary?
  {
    if rs == [] then [] else [Binary(e.op, l, rs[0], Nil)] + WithLeft(e, l, rs[1..])
  }

  function WithChild(e: Tree, cs: seq<Tree>): seq<Tree>
    requires e.Unary?
  {
    if cs == [] then [] else [Unary(e.op, cs[0], Nil)] + WithChild(e, cs[1..])
  }

  /** The choices for a subtree, the node's own first, then those of its alternatives. */
  function Choices(e: Tree): seq<Tree> {
    match e
    case Nil => []
    case Leaf(p, alt) => [Leaf(p, Nil)] + Choices(alt)
    case Binary(_, l, r, alt) => WithOperands(e, Choices(l), Choices(r)) + Choices(alt)
    case Unary(_, c, alt) => WithChild(e, Choices(c)) + Choices(alt)
  }

  /** `t` picks one alternative at every node of `e`. */
  predicate IsChoice(e: Tree, t: Tree) {
    match e
    case Nil => false
    case Leaf(p, alt) => t == Leaf(p, Nil) || IsChoice(alt, t)
    case Binary(op, l, r, alt) =>
      (t.Binary? && t.op == op && t.alt.Nil? && IsChoice(l, t.left) && IsChoice(r, t.right)) || IsChoice(alt, t)
    case Unary(op, c, alt) =>
      (t.Unary? && t.op == op && t.alt.Nil? && IsChoice(c, t.child)) || IsChoice(alt, t)
  }

  function Count(e: Tree): nat {
    match e
    case Nil => 0
    case Leaf(_, alt) => 1 + Count(alt)
    case Binary(_, l, r, alt) => Count(l) * Count(r) + Count(alt)
    case Unary(_, c, alt) => Count(c) + Count(alt)
  }

  lemma {:induction false} WithLeftMembers(e: Tree, l: Tree, rs: seq<Tree>, t: Tree)
    requires e.Binary?
    ensures |WithLeft(e, l, rs)| == |rs|
    ensures t in WithLeft(e, l, rs) <==> t.Binary? && t.op == e.op && t.alt.Nil? && t.left == l && t.right in rs
  {
    if rs != [] {
      WithLeftMembers(e, l, rs[1..], t);
      assert rs == [rs[0]] + rs[1..];
    }
  }

  lemma {:induction false} WithOperandsMembers(e: Tree, ls: seq<Tree>, rs: seq<Tree>, t: Tree)
    requires e.Binary?
    ensures |WithOperands(e, ls, rs)| == |ls| * |rs|
    ensures t in WithOperands(e, ls, rs) <==>
            t.Binary? && t.op == e.op && t.alt.Nil? && t.left in ls && t.right in rs
  {
    if ls != [] {
      WithLeftMembers(e, ls[0], rs, t);
      WithOperandsMembers(e, ls[1..], rs, t);
      assert ls == [ls[0]] + ls[1..];
      assert |ls| * |rs| == |rs| + (|ls| - 1) * |rs|;
    }
  }

  lemma {:induction false} WithChildMembers(e: Tree, cs: seq<Tree>, t: Tree)
    requires e.Unary?
    ensures |WithChild(e, cs)| == |cs|
    ensures t in WithChild(e, cs) <==> t.Unary? && t.op == e.op && t.alt.Nil? && t.child in cs
  {
    if cs != [] {
      WithChildMembers(e, cs[1..], t);
      assert cs == [cs[0]] + cs[1..];
    }
  }

  /** The list of choices holds precisely the trees that pick one alternative per node ... */
  lemma {:induction false} ChoicesAreExact(e: Tree, t: Tree)
    ensures t in Choices(e) <==> IsChoice(e, t)
  {
    match e {
      case Nil =>
      case Leaf(_, alt) => ChoicesAreExact(alt, t);
      case Binary(_, l, r, alt) =>
        ChoicesAreExact(alt, t);
        WithOperandsMembers(e, Choices(l), Choices(r), t);
        if t.Binary? {
          ChoicesAreExact(l, t.left);
          ChoicesAreExact(r, t.right);
        }
      case Unary(_, c, alt) =>
        ChoicesAreExact(alt, t);
        WithChildMembers(e, Choices(c), t);
        if t.Unary? {
          ChoicesAreExact(c, t.child);
        }
    }
  }

  /** ... and their number multiplies over children and adds over alternatives. */
  lemma {:induction false} ChoicesCount(e: Tree)
    ensures |Choices(e)| == Count(e)
  {
    match e {
      case Nil =>
      case Leaf(_, alt) => ChoicesCount(alt);
      case Binary(_, l, r, alt) =>
        ChoicesCount(l); ChoicesCount(r); ChoicesCount(alt);
        WithOperandsMembers(e, Choices(l), Choices(r), e);
      case Unary(_, c, alt) =>
        ChoicesCount(c); ChoicesCount(alt);
        WithChildMembers(e, Choices(c), e);
    }
  }

  // ---- What the code does ----

  ghost predicate AllSmall(ts: seq<Tree>, bound: nat) {
    forall t :: t in ts ==> !t.Nil? && Size(t) <= bound
  }

  /** The base class: this node alone, followed by its alternatives' expansions. */
  function ExpandSelf(e: Tree): (ts: seq<Tree>)
    requires !e.Nil?
    ensures AllSmall(ts, Size(e))
    ensures forall t :: t in ts ==> t == Alone(e) || t == e || Size(t) < Size(e)
    decreases Size(e), 0
  {
    if e.alt.Nil? then [e] else [Alone(e)] + Expand(e.alt)
  }

  /** Every binary element of `selfs` is combined with all pairs of operands. */
  function PairBinary(selfs: seq<Tree>, ls: seq<Tree>, rs: seq<Tree>, ghost bound: nat): (ts: seq<Tree>)
    requires forall s :: s in selfs ==> !s.Nil? && (s.Binary? || Size(s) < bound)
    requires forall l, r :: l in ls && r in rs ==> 1 + Size(l) + Size(r) <= bound
    ensures AllSmall(ts, bound)
    decreases bound, 0, |selfs|
  {
    if selfs == [] then []
    else
      var rest := PairBinary(selfs[1..], ls, rs, bound);
      if selfs[0].Binary? then
        assert AllSmall(WithOperands(selfs[0], ls, rs), bound) by { PairsAreSmall(selfs[0], ls, rs, bound); }
        WithOperands(selfs[0], ls, rs) + rest
      else
        Expand(selfs[0]) + rest
  }

  function PairUnary(selfs: seq<Tree>, cs: seq<Tree>, ghost bound: nat): (ts: seq<Tree>)
    requires forall s :: s in selfs ==> !s.Nil? && (s.Unary? || Size(s) < bound)
    requires forall c :: c in cs ==> 1 + Size(c) <= bound
    ensures AllSmall(ts, bound)
    decreases bound, 0, |selfs|
  {
    if selfs == [] then []
    else
      var rest := PairUnary(selfs[1..], cs, bound);
      if selfs[0].Unary? then
        assert AllSmall(WithChild(selfs[0], cs), bound) by { ChildrenAreSmall(selfs[0], cs, bound); }
        WithChild(selfs[0], cs) + rest
      else
        Expand(selfs[0]) + rest
  }

  lemma PairsAreSmall(e: Tree, ls: seq<Tree>, rs: seq<Tree>, bound: nat)
    requires e.Binary?
    requires forall l, r :: l in ls && r in rs ==> 1 + Size(l) + Size(r) <= bound
    ensures AllSmall(WithOperands(e, ls, rs), bound)
  {
    forall t | t in WithOperands(e, ls, rs) ensures !t.Nil? && Size(t) <= bound {
      WithOperandsMembers(e, ls, rs, t);
    }
  }

  lemma ChildrenAreSmall(e: Tree, cs: seq<Tree>, bound: nat)
    requires e.Unary?
    requires forall c :: c in cs ==> 1 + Size(c) <= bound
    ensures AllSmall(WithChild(e, cs), bound)
  {
    forall t | t in WithChild(e, cs) ensures !t.Nil? && Size(t) <= bound {
      WithChildMembers(e, cs, t);
    }
  }

  function Expand(e: Tree): (ts: seq<Tree>)
    requires !e.Nil?
    ensures AllSmall(ts, Size(e))
    decreases Size(e), 1
  {
    match e
    case Leaf(_, _) => ExpandSelf(e)
    case Binary(_, l, r, _) =>
      var selfs := ExpandSelf(e);
      var ls := if l.Nil? then [] else Expand(l);
      var rs := if r.Nil? then [] else Expand(r);
      if |ls| <= 1 && |rs| <= 1 then selfs else PairBinary(selfs, ls, rs, Size(e))
    case Unary(_, c, _) =>
      var selfs := ExpandSelf(e);
      var cs := if c.Nil? then [] else Expand(c);
      if |cs| <= 1 then selfs else PairUnary(selfs, cs, Size(e))
  }

  // ---- When the code meets the meaning ----

  predicate ChainHas(e: Tree, binary: bool) {
    !e.Nil? && ((if binary then e.Binary? else e.Unary?) || ChainHas(e.alt, binary))
  }

  /**
   * No node with a choice below it has an own alternative of its own operator class:
   * the code would pair such an alternative with this node's operands.
   */
  predicate Clean(e: Tree) {
    match e
    case Nil => true
    case Leaf(_, alt) => Clean(alt)
    case Binary(_, l, r, alt) =>
      && Clean(l) && Clean(r) && Clean(alt)
      && ((AlternativeFree(l) && AlternativeFree(r)) || !ChainHas(alt, true))
    case Unary(_, c, alt) =>
      && Clean(c) && Clean(alt)
      && (AlternativeFree(c) || !ChainHas(alt, false))
  }

  lemma {:induction false} AlternativeFreeExpand(e: Tree)
    requires !e.Nil? && AlternativeFree(e)
    ensures Expand(e) == [e]
  {
    match e {
      case Leaf(_, _) =>
      case Binary(_, l, r, _) =>
        if !l.Nil? { AlternativeFreeExpand(l); }
        if !r.Nil? { AlternativeFreeExpand(r); }
      case Unary(_, c, _) =>
        if !c.Nil? { AlternativeFreeExpand(c); }
    }
  }

  lemma {:induction false} ChoicesShape(e: Tree)
    requires !e.Nil? && Complete(e)
    ensures Choices(e) != []
    ensures |Choices(e)| == 1 <==> AlternativeFree(e)
    ensures AlternativeFree(e) ==> Choices(e) == [e]
    ensures forall t :: t in Choices(e) ==> !t.Nil? && AlternativeFree(t)
    ensures forall t :: t in Choices(e) ==> (t.Binary? ==> ChainHas(e, true)) && (t.Unary? ==> ChainHas(e, false))
  {
    if !e.alt.Nil? { ChoicesShape(e.alt); }
    match e {
      case Leaf(_, _) =>
      case Binary(_, l, r, _) =>
        ChoicesShape(l);
        ChoicesShape(r);
        forall t | t in WithOperands(e, Choices(l), Choices(r))
          ensures t.Binary? && AlternativeFree(t)
        {
          WithOperandsMembers(e, Choices(l), Choices(r), t);
        }
        WithOperandsMembers(e, Choices(l), Choices(r), e);
        ProductIsOne(|Choices(l)|, |Choices(r)|);
      case Unary(_, c, _) =>
        ChoicesShape(c);
        forall t | t in WithChild(e, Choices(c))
          ensures t.Unary? && AlternativeFree(t)
        {
          WithChildMembers(e, Choices(c), t);
        }
        WithChildMembers(e, Choices(c), e);
    }
  }

  lemma ChoicesSingle(e: Tree)
    requires !e.Nil? && Complete(e)
    ensures Choices(e) != []
    ensures |Choices(e)| == 1 <==> AlternativeFree(e)
    ensures AlternativeFree(e) ==> Choices(e) == [e]
  {
    ChoicesShape(e);
  }

  lemma ProductIsOne(m: nat, n: nat)
    requires m >= 1 && n >= 1
    ensures m * n >= m && m * n >= n
    ensures m * n == 1 <==> m == 1 && n == 1
  {
    assert m * n == m * (n - 1) + m == n * (m - 1) + n;
  }

  lemma {:induction false} PairBinaryKeeps(ts: seq<Tree>, ls: seq<Tree>, rs: seq<Tree>, bound: nat)
    requires forall t :: t in ts ==> !t.Nil? && !t.Binary? && AlternativeFree(t) && Size(t) < bound
    requires forall l, r :: l in ls && r in rs ==> 1 + Size(l) + Size(r) <= bound
    ensures PairBinary(ts, ls, rs, bound) == ts
  {
    if ts != [] {
      AlternativeFreeExpand(ts[0]);
      PairBinaryKeeps(ts[1..], ls, rs, bound);
    }
  }

  lemma {:induction false} PairUnaryKeeps(ts: seq<Tree>, cs: seq<Tree>, bound: nat)
    requires forall t :: t in ts ==> !t.Nil? && !t.Unary? && AlternativeFree(t) && Size(t) < bound
    requires forall c :: c in cs ==> 1 + Size(c) <= bound
    ensures PairUnary(ts, cs, bound) == ts
  {
    if ts != [] {
      AlternativeFreeExpand(ts[0]);
      PairUnaryKeeps(ts[1..], cs, bound);
    }
  }

  lemma {:induction false} CleanExpandsToChoices(e: Tree)
    requires !e.Nil? && Complete(e) && Clean(e)
    ensures Expand(e) == Choices(e)
  {
    ChoicesShape(e);
    if !e.alt.Nil? {
      CleanExpandsToChoices(e.alt);
      ChoicesShape(e.alt);
    }
    match e {
      case Leaf(_, _) =>
      case Binary(_, l, r, _) =>
        CleanExpandsToChoices(l);
        CleanExpandsToChoices(r);
        CleanBinary(e);
      case Unary(_, c, _) =>
        CleanExpandsToChoices(c);
        CleanUnary(e);
    }
  }

  lemma CleanBinary(e: Tree)
    requires e.Binary? && Complete(e) && Clean(e)
    requires Expand(e.left) == Choices(e.left) && Expand(e.right) == Choices(e.right)
    requires !e.alt.Nil? ==> Expand(e.alt) == Choices(e.alt)
    ensures Expand(e) == Choices(e)
  {
    ChoicesSingle(e.left);
    ChoicesSingle(e.right);
    if |Choices(e.left)| > 1 || |Choices(e.right)| > 1 {
      CleanBinaryPairs(e);
    } else {
      SingleOperands(e);
    }
  }

  lemma CleanBinaryPairs(e: Tree)
    requires e.Binary? && Complete(e) && !ChainHas(e.alt, true)
    requires Expand(e.left) == Choices(e.left) && Expand(e.right) == Choices(e.right)
    requires !e.alt.Nil? ==> Expand(e.alt) == Choices(e.alt)
    requires |Choices(e.left)| > 1 || |Choices(e.right)| > 1
    ensures Expand(e) == Choices(e)
  {
    hide WithLeft, WithOperands;
    var selfs, ls, rs := ExpandSelf(e), Choices(e.left), Choices(e.right);
    if !e.alt.Nil? { ChoicesShape(e.alt); }
    assert selfs == [selfs[0]] + Choices(e.alt) && selfs[1..] == Choices(e.alt);
    PairBinaryKeeps(selfs[1..], ls, rs, Size(e));
    WithOperandsOnlyUsesOp(e, selfs[0], ls, rs);
  }

  lemma CleanUnary(e: Tree)
    requires e.Unary? && Complete(e) && Clean(e)
    requires Expand(e.child) == Choices(e.child)
    requires !e.alt.Nil? ==> Expand(e.alt) == Choices(e.alt)
    ensures Expand(e) == Choices(e)
  {
    ChoicesSingle(e.child);
    if |Choices(e.child)| > 1 {
      CleanUnaryPairs(e);
    } else {
      SingleChild(e);
    }
  }

  lemma SingleChild(e: Tree)
    requires e.Unary?
    ensures WithChild(e, [e.child]) == [Alone(e)]
  {
    assert [e.child][1..] == [];
    assert WithChild(e, [e.child]) == [Alone(e)] + WithChild(e, []);
  }

  lemma CleanUnaryPairs(e: Tree)
    requires e.Unary? && Complete(e) && !ChainHas(e.alt, false)
    requires Expand(e.child) == Choices(e.child) && |Choices(e.child)| > 1
    requires !e.alt.Nil? ==> Expand(e.alt) == Choices(e.alt)
    ensures Expand(e) == Choices(e)
  {
    hide WithChild;
    var selfs, cs := ExpandSelf(e), Choices(e.child);
    if !e.alt.Nil? { ChoicesShape(e.alt); }
    assert selfs == [selfs[0]] + Choices(e.alt) && selfs[1..] == Choices(e.alt);
    PairUnaryKeeps(selfs[1..], cs, Size(e));
    WithChildOnlyUsesOp(e, selfs[0], cs);
  }

  lemma SingleOperands(e: Tree)
    requires e.Binary?
    ensures WithOperands(e, [e.left], [e.right]) == [Alone(e)]
  {
    assert [e.left][1..] == [] && [e.right][1..] == [];
    assert WithLeft(e, e.left, [e.right]) == [Alone(e)] + WithLeft(e, e.left, []);
    assert WithOperands(e, [e.left], [e.right]) == WithLeft(e, e.left, [e.right]) + WithOperands(e, [], [e.right]);
  }

  lemma {:induction false} WithLeftOnlyUsesOp(e: Tree, f: Tree, l: Tree, rs: seq<Tree>)
    requires e.Binary? && f.Binary? && e.op == f.op
    ensures WithLeft(e, l, rs) == WithLeft(f, l, rs)
  {
    if rs != [] { WithLeftOnlyUsesOp(e, f, l, rs[1..]); }
  }

  lemma {:induction false} WithOperandsOnlyUsesOp(e: Tree, f: Tree, ls: seq<Tree>, rs: seq<Tree>)
    requires e.Binary? && f.Binary? && e.op == f.op
    ensures WithOperands(e, ls, rs) == WithOperands(f, ls, rs)
  {
    if ls != [] {
      WithLeftOnlyUsesOp(e, f, ls[0], rs);
      WithOperandsOnlyUsesOp(e, f, ls[1..], rs);
    }
  }

  lemma {:induction false} WithChildOnlyUsesOp(e: Tree, f: Tree, cs: seq<Tree>)
    requires e.Unary? && f.Unary? && e.op == f.op
    ensures WithChild(e, cs) == WithChild(f, cs)
  {
    if cs != [] { WithChildOnlyUsesOp(e, f, cs[1..]); }
  }

  // ---- ... and only then ----

  ghost predicate Settled(ts: seq<Tree>) {
    forall t :: t in ts ==> !t.Nil? && AlternativeFree(t) && Complete(t)
  }

  ghost predicate Has(ts: seq<Tree>, binary: bool) {
    exists t :: t in ts && if binary then t.Binary? else t.Unary?
  }

  lemma Joined(a: seq<Tree>, b: seq<Tree>)
    ensures Settled(a + b) <==> Settled(a) && Settled(b)
    ensures forall k: bool :: Has(a + b, k) <==> Has(a, k) || Has(b, k)
  {
    if Settled(a + b) {
      assert forall t :: t in a ==> t in a + b;
      assert forall t :: t in b ==> t in a + b;
    }
    forall k: bool ensures Has(a + b, k) <==> Has(a, k) || Has(b, k) {
      if Has(a, k) {
        var t :| t in a && if k then t.Binary? else t.Unary?;
        assert t in a + b;
      }
      if Has(b, k) {
        var t :| t in b && if k then t.Binary? else t.Unary?;
        assert t in a + b;
      }
    }
  }

  lemma PairsAreBinary(e: Tree, ls: seq<Tree>, rs: seq<Tree>)
    requires e.Binary? && Settled(ls) && Settled(rs) && ls != [] && rs != []
    ensures Settled(WithOperands(e, ls, rs)) && Has(WithOperands(e, ls, rs), true)
    ensures |WithOperands(e, ls, rs)| == |ls| * |rs| >= 1
  {
    var pairs := WithOperands(e, ls, rs);
    WithOperandsMembers(e, ls, rs, e);
    ProductIsOne(|ls|, |rs|);
    forall t | t in pairs ensures t.Binary? && AlternativeFree(t) && Complete(t) {
      WithOperandsMembers(e, ls, rs, t);
    }
    assert pairs[0] in pairs;
  }

  lemma PairsAreUnary(e: Tree, cs: seq<Tree>)
    requires e.Unary? && Settled(cs) && cs != []
    ensures Settled(WithChild(e, cs)) && Has(WithChild(e, cs), false)
    ensures |WithChild(e, cs)| == |cs|
  {
    var pairs := WithChild(e, cs);
    WithChildMembers(e, cs, e);
    forall t | t in pairs ensures t.Unary? && AlternativeFree(t) && Complete(t) {
      WithChildMembers(e, cs, t);
    }
    assert pairs[0] in pairs;
  }

  lemma {:induction false} PairBinaryGrows(ts: seq<Tree>, ls: seq<Tree>, rs: seq<Tree>, bound: nat)
    requires Settled(ts) && Settled(ls) && Settled(rs) && ls != [] && rs != []
    requires forall t :: t in ts ==> t.Binary? || Size(t) < bound
    requires forall l, r :: l in ls && r in rs ==> 1 + Size(l) + Size(r) <= bound
    ensures var out := PairBinary(ts, ls, rs, bound);
      && Settled(out) && |out| >= |ts|
      && (Has(ts, true) ==> |out| >= |ts| + |ls| * |rs| - 1)
      && (forall k: bool :: Has(ts, k) ==> Has(out, k))
  {
    if ts != [] {
      PairBinaryGrows(ts[1..], ls, rs, bound);
      var first := if ts[0].Binary? then WithOperands(ts[0], ls, rs) else Expand(ts[0]);
      Joined([ts[0]], ts[1..]);
      assert [ts[0]] + ts[1..] == ts;
      Joined(first, PairBinary(ts[1..], ls, rs, bound));
      if ts[0].Binary? {
        PairsAreBinary(ts[0], ls, rs);
      } else {
        AlternativeFreeExpand(ts[0]);
      }
    }
  }

  lemma {:induction false} PairUnaryGrows(ts: seq<Tree>, cs: seq<Tree>, bound: nat)
    requires Settled(ts) && Settled(cs) && cs != []
    requires forall t :: t in ts ==> t.Unary? || Size(t) < bound
    requires forall c :: c in cs ==> 1 + Size(c) <= bound
    ensures var out := PairUnary(ts, cs, bound);
      && Settled(out) && |out| >= |ts|
      && (Has(ts, false) ==> |out| >= |ts| + |cs| - 1)
      && (forall k: bool :: Has(ts, k) ==> Has(out, k))
  {
    if ts != [] {
      PairUnaryGrows(ts[1..], cs, bound);
      var first := if ts[0].Unary? then WithChild(ts[0], cs) else Expand(ts[0]);
      Joined([ts[0]], ts[1..]);
      assert [ts[0]] + ts[1..] == ts;
      Joined(first, PairUnary(ts[1..], cs, bound));
      if ts[0].Unary? {
        PairsAreUnary(ts[0], cs);
      } else {
        AlternativeFreeExpand(ts[0]);
      }
    }
  }

  lemma ProductGrows(m: nat, n: nat, m': nat, n': nat)
    requires m >= m' >= 1 && n >= n' >= 1
    ensures m * n >= m' * n'
    ensures m > m' || n > n' ==> m * n > m' * n'
  {
    FactorGrows(m, m', n);
    FactorGrows(n, n', m');
  }

  lemma FactorGrows(m: nat, m': nat, n: nat)
    requires m >= m' && n >= 1
    ensures m * n >= m' * n
    ensures m > m' ==> m * n > m' * n
  {
    assert m * n == m' * n + (m - m') * n;
    if m > m' { ProductIsOne(m - m', n); }
  }

  lemma {:induction false} AlternativeFreeIsClean(e: Tree)
    requires AlternativeFree(e)
    ensures Clean(e)
  {
    match e {
      case Binary(_, l, r, _) => AlternativeFreeIsClean(l); AlternativeFreeIsClean(r);
      case Unary(_, c, _) => AlternativeFreeIsClean(c);
      case _ =>
    }
  }

  /** The facts about an expansion that survive an unclean tree. */
  ghost predicate Grown(e: Tree, ts: seq<Tree>) {
    && Settled(ts) && |ts| >= Count(e)
    && (!Clean(e) ==> |ts| > Count(e))
    && (forall k: bool :: ChainHas(e, k) ==> Has(ts, k))
  }

  lemma CountShape(e: Tree)
    requires !e.Nil? && Complete(e)
    ensures Count(e) >= 1 && (Count(e) == 1 <==> AlternativeFree(e))
  {
    ChoicesShape(e);
    ChoicesCount(e);
  }

  lemma {:induction false} ExpandGrows(e: Tree)
    requires !e.Nil? && Complete(e)
    ensures Grown(e, Expand(e))
  {
    if !e.alt.Nil? { ExpandGrows(e.alt); }
    assert Grown(e.alt, Tail(e));
    match e {
      case Leaf(_, _) =>
        var tail := if e.alt.Nil? then [] else Expand(e.alt);
        Joined([Alone(e)], tail);
        assert Expand(e) == [Alone(e)] + tail;
        assert Clean(e) <==> Clean(e.alt);
      case Binary(_, l, r, _) =>
        ExpandGrows(l);
        ExpandGrows(r);
        BinaryGrows(e);
      case Unary(_, c, _) =>
        ExpandGrows(c);
        UnaryGrows(e);
    }
  }

  ghost function Tail(e: Tree): seq<Tree>
    requires !e.Nil?
  {
    if e.alt.Nil? then [] else Expand(e.alt)
  }

  lemma BinaryGrows(e: Tree)
    requires e.Binary? && Complete(e) && Grown(e.left, Expand(e.left)) && Grown(e.right, Expand(e.right))
    requires Grown(e.alt, Tail(e))
    ensures Grown(e, Expand(e))
  {
    CountShape(e.left);
    CountShape(e.right);
    AlternativeFreeMayBeClean(e.left);
    AlternativeFreeMayBeClean(e.right);
    if |Expand(e.left)| > 1 || |Expand(e.right)| > 1 {
      BinaryPairsGrow(e);
    } else {
      var self := if e.alt.Nil? then e else Alone(e);
      assert Expand(e) == [self] + Tail(e);
      assert [self][0] in [self];
      Joined([self], Tail(e));
    }
  }

  lemma AlternativeFreeMayBeClean(e: Tree)
    ensures AlternativeFree(e) ==> Clean(e)
  {
    if AlternativeFree(e) { AlternativeFreeIsClean(e); }
  }

  lemma BinaryPairsGrow(e: Tree)
    requires e.Binary? && Complete(e) && Grown(e.left, Expand(e.left)) && Grown(e.right, Expand(e.right))
    requires Grown(e.alt, Tail(e)) && Count(e.left) >= 1 && Count(e.right) >= 1
    requires |Expand(e.left)| > 1 || |Expand(e.right)| > 1
    ensures Grown(e, Expand(e))
  {
    hide Expand, Settled, Has;
    var ls, rs, tail := Expand(e.left), Expand(e.right), Tail(e);
    var pairs, rest := BinaryInParts(e);
    Joined(pairs, rest);
    ProductIsOne(|ls|, |rs|);
    ProductGrows(|ls|, |rs|, Count(e.left), Count(e.right));
    assert ChainHas(e.alt, true) ==> |rest| > |tail|;
    forall k: bool | ChainHas(e, k) ensures Has(Expand(e), k) {
      if !k { assert ChainHas(e.alt, k); }
    }
  }

  /** The pairs for the node itself, and what its alternatives become. */
  lemma BinaryInParts(e: Tree) returns (pairs: seq<Tree>, rest: seq<Tree>)
    requires e.Binary? && !e.left.Nil? && !e.right.Nil?
    requires Settled(Expand(e.left)) && Settled(Expand(e.right)) && Settled(Tail(e))
    requires |Expand(e.left)| >= 1 && |Expand(e.right)| >= 1 && |Expand(e.left)| + |Expand(e.right)| > 2
    ensures Expand(e) == pairs + rest && Settled(pairs) && Settled(rest)
    ensures |pairs| == |Expand(e.left)| * |Expand(e.right)| && Has(pairs, true)
    ensures |rest| >= |Tail(e)| + if Has(Tail(e), true) then |pairs| - 1 else 0
    ensures forall k: bool :: Has(Tail(e), k) ==> Has(rest, k)
  {
    var ls, rs, tail := Expand(e.left), Expand(e.right), Tail(e);
    var self := if e.alt.Nil? then e else Alone(e);
    assert ExpandSelf(e) == [self] + tail && ExpandSelf(e)[1..] == tail;
    pairs, rest := WithOperands(self, ls, rs), PairBinary(tail, ls, rs, Size(e));
    assert Expand(e) == pairs + rest;
    hide Settled, Has, Expand, WithOperands, PairBinary;
    PairBinaryGrows(tail, ls, rs, Size(e));
    PairsAreBinary(self, ls, rs);
  }

  lemma UnaryGrows(e: Tree)
    requires e.Unary? && Complete(e) && Grown(e.child, Expand(e.child)) && Grown(e.alt, Tail(e))
    ensures Grown(e, Expand(e))
  {
    var cs, tail := Expand(e.child), Tail(e);
    var self := if e.alt.Nil? then e else Alone(e);
    CountShape(e.child);
    AlternativeFreeMayBeClean(e.child);
    assert ExpandSelf(e) == [self] + tail && ExpandSelf(e)[1..] == tail;
    if |cs| > 1 {
      var pairs, rest := WithChild(self, cs), PairUnary(tail, cs, Size(e));
      assert Expand(e) == pairs + rest;
      PairUnaryGrows(tail, cs, Size(e));
      PairsAreUnary(self, cs);
      Joined(pairs, rest);
      assert ChainHas(e.alt, false) ==> |rest| > |tail|;
      forall k: bool | ChainHas(e, k) ensures Has(Expand(e), k) {
        if k { assert ChainHas(e.alt, k); }
      }
    } else {
      assert [self][0] in [self];
      Joined([self], tail);
    }
  }

  /** Exactly the clean trees expand to one tree per way of choosing. */
  lemma ExpansionIsExactIffClean(e: Tree)
    requires !e.Nil? && Complete(e)
    ensures Expand(e) == Choices(e) <==> Clean(e)
  {
    if Clean(e) {
      CleanExpandsToChoices(e);
    } else {
      ExpandGrows(e);
      ChoicesCount(e);
    }
  }

  lemma ExpandIsSettled(e: Tree)
    requires !e.Nil? && Complete(e)
    ensures Settled(Expand(e)) && Expand(e) != []
  {
    ExpandGrows(e);
    CountShape(e);
  }

  lemma {:induction false} PairBinaryMembers(ss: seq<Tree>, ls: seq<Tree>, rs: seq<Tree>, bound: nat, t: Tree)
    requires Settled(ss)
    requires forall s :: s in ss ==> s.Binary? || Size(s) < bound
    requires forall l, r :: l in ls && r in rs ==> 1 + Size(l) + Size(r) <= bound
    ensures t in PairBinary(ss, ls, rs, bound) <==>
            if t.Binary?
            then t.alt.Nil? && t.left in ls && t.right in rs && exists s :: s in ss && s.Binary? && s.op == t.op
            else t in ss
  {
    if ss != [] {
      PairBinaryMembers(ss[1..], ls, rs, bound, t);
      assert ss == [ss[0]] + ss[1..];
      if ss[0].Binary? {
        WithOperandsMembers(ss[0], ls, rs, t);
      } else {
        AlternativeFreeExpand(ss[0]);
      }
    }
  }

  lemma {:induction false} PairUnaryMembers(ss: seq<Tree>, cs: seq<Tree>, bound: nat, t: Tree)
    requires Settled(ss)
    requires forall s :: s in ss ==> s.Unary? || Size(s) < bound
    requires forall c :: c in cs ==> 1 + Size(c) <= bound
    ensures t in PairUnary(ss, cs, bound) <==>
            if t.Unary? then t.alt.Nil? && t.child in cs && exists s :: s in ss && s.Unary? && s.op == t.op
            else t in ss
  {
    if ss != [] {
      PairUnaryMembers(ss[1..], cs, bound, t);
      assert ss == [ss[0]] + ss[1..];
      if ss[0].Unary? {
        WithChildMembers(ss[0], cs, t);
      } else {
        AlternativeFreeExpand(ss[0]);
      }
    }
  }

  /** The node on its own is listed, or an expansion of one of its alternatives is. */
  ghost predicate OfChain(e: Tree, t: Tree)
    requires !e.Nil?
  {
    t == Alone(e) || (!e.alt.Nil? && t in Expand(e.alt))
  }

  /**
   * What any binary node expands to. Without choices below it, itself and its alternatives; otherwise every
   * operator that one of these has, combined with all pairs of operands, and those that have none.
   */
  lemma BinaryMembers(e: Tree, t: Tree)
    requires e.Binary? && Complete(e)
    ensures AlternativeFree(e.left) && AlternativeFree(e.right) ==> (t in Expand(e) <==> OfChain(e, t))
    ensures !(AlternativeFree(e.left) && AlternativeFree(e.right)) ==>
              (t in Expand(e) <==>
               if t.Binary? then
                 t.alt.Nil? && t.left in Expand(e.left) && t.right in Expand(e.right)
                 && exists s: Tree :: s.Binary? && s.op == t.op && OfChain(e, s)
               else OfChain(e, t))
  {
    ManyIffAlternatives(e.left);
    ManyIffAlternatives(e.right);
    if !e.alt.Nil? { ExpandIsSettled(e.alt); }
    assert forall s :: s in Tail(e) <==> !e.alt.Nil? && s in Expand(e.alt);
    if AlternativeFree(e.left) && AlternativeFree(e.right) {
      SelfAndTail(e, t);
    } else {
      hide Expand;
      BinaryPaired(e, t);
      assert OfChain(e, Alone(e));
    }
  }

  lemma SelfAndTail(e: Tree, t: Tree)
    requires e.Binary? && !e.left.Nil? && !e.right.Nil? && |Expand(e.left)| <= 1 && |Expand(e.right)| <= 1
    ensures t in Expand(e) <==> t == Alone(e) || t in Tail(e)
  {
    assert Expand(e) == ExpandSelf(e);
  }

  lemma BinaryPaired(e: Tree, t: Tree)
    requires e.Binary? && !e.left.Nil? && !e.right.Nil? && Settled(Tail(e))
    requires |Expand(e.left)| > 1 || |Expand(e.right)| > 1
    ensures t in Expand(e) <==>
            if t.Binary?
            then t.alt.Nil? && t.left in Expand(e.left) && t.right in Expand(e.right)
                 && (t.op == e.op || exists s :: s in Tail(e) && s.Binary? && s.op == t.op)
            else t in Tail(e)
  {
    var ls, rs, tail := Expand(e.left), Expand(e.right), Tail(e);
    var self := if e.alt.Nil? then e else Alone(e);
    assert ExpandSelf(e) == [self] + tail && ExpandSelf(e)[1..] == tail;
    assert Expand(e) == WithOperands(self, ls, rs) + PairBinary(tail, ls, rs, Size(e));
    hide Expand, WithOperands, PairBinary, Settled;
    WithOperandsMembers(self, ls, rs, t);
    PairBinaryMembers(tail, ls, rs, Size(e), t);
  }

  /** The same for unary nodes. */
  lemma UnaryMembers(e: Tree, t: Tree)
    requires e.Unary? && Complete(e)
    ensures AlternativeFree(e.child) ==> (t in Expand(e) <==> OfChain(e, t))
    ensures !AlternativeFree(e.child) ==>
              (t in Expand(e) <==>
               if t.Unary? then
                 t.alt.Nil? && t.child in Expand(e.child) && exists s: Tree :: s.Unary? && s.op == t.op && OfChain(e, s)
               else OfChain(e, t))
  {
    ManyIffAlternatives(e.child);
    if !e.alt.Nil? { ExpandIsSettled(e.alt); }
    assert forall s :: s in Tail(e) <==> !e.alt.Nil? && s in Expand(e.alt);
    if AlternativeFree(e.child) {
      assert Expand(e) == ExpandSelf(e);
    } else {
      hide Expand;
      UnaryPaired(e, t);
      assert OfChain(e, Alone(e));
    }
  }

  lemma UnaryPaired(e: Tree, t: Tree)
    requires e.Unary? && !e.child.Nil? && Settled(Tail(e)) && |Expand(e.child)| > 1
    ensures t in Expand(e) <==>
            if t.Unary?
            then t.alt.Nil? && t.child in Expand(e.child)
                 && (t.op == e.op || exists s :: s in Tail(e) && s.Unary? && s.op == t.op)
            else t in Tail(e)
  {
    var cs, tail := Expand(e.child), Tail(e);
    var self := if e.alt.Nil? then e else Alone(e);
    assert ExpandSelf(e) == [self] + tail && ExpandSelf(e)[1..] == tail;
    assert Expand(e) == WithChild(self, cs) + PairUnary(tail, cs, Size(e));
    hide Expand, WithChild, PairUnary, Settled;
    WithChildMembers(self, cs, t);
    PairUnaryMembers(tail, cs, Size(e), t);
  }

  lemma PairsVanish(e: Tree)
    requires e.Binary? && e.alt.Nil?
    requires (e.left.Nil? && !e.right.Nil? && |Expand(e.right)| > 1) || (e.right.Nil? && !e.left.Nil?
              && |Expand(e.left)| > 1)
    ensures Expand(e) == []
  {
    var ls := if e.left.Nil? then [] else Expand(e.left);
    var rs := if e.right.Nil? then [] else Expand(e.right);
    var pairs := WithOperands(e, ls, rs);
    WithOperandsMembers(e, ls, rs, e);
    assert [e][1..] == [];
    assert Expand(e) == pairs + PairBinary([], ls, rs, Size(e));
  }

  /** A tree has more than one expansion exactly if it has alternatives. */
  lemma ManyIffAlternatives(e: Tree)
    requires !e.Nil? && Complete(e)
    ensures |Expand(e)| >= 1 && (|Expand(e)| > 1 <==> !AlternativeFree(e))
  {
    ExpandGrows(e);
    CountShape(e);
    if AlternativeFree(e) { AlternativeFreeExpand(e); }
  }

  predicate HasAlternatives(e: Tree) { !e.Nil? && !AlternativeFree(e) }

  /** A binary node disappears from the list exactly if one operand is missing and the other has alternatives. */
  lemma MissingOperandLosesNode(e: Tree)
    requires e.Binary? && e.alt.Nil? && Complete(e.left) && Complete(e.right)
    ensures Expand(e) == [] <==>
            (e.left.Nil? && HasAlternatives(e.right)) || (e.right.Nil? && HasAlternatives(e.left))
  {
    hide Expand;
    if !e.left.Nil? { ManyIffAlternatives(e.left); }
    if !e.right.Nil? { ManyIffAlternatives(e.right); }
    if (e.left.Nil? && HasAlternatives(e.right)) || (e.right.Nil? && HasAlternatives(e.left)) {
      PairsVanish(e);
    } else if !e.left.Nil? && !e.right.Nil? {
      assert Complete(e);
      ManyIffAlternatives(e);
    } else {
      SelfStays(e);
    }
  }

  lemma SelfStays(e: Tree)
    requires e.Binary? && e.alt.Nil?
    requires e.left.Nil? || |Expand(e.left)| <= 1
    requires e.right.Nil? || |Expand(e.right)| <= 1
    ensures Expand(e) == [e]
  {
  }

  /** An addition with alternatives below it and a subtraction as its own alternative: that one is paired again. */
  lemma OwnAlternativeIsPairedAgain()
    ensures exists e: Tree :: !e.Nil? && Complete(e) && Expand(e) != Choices(e)
  {
    var leaf := Leaf(Void, Nil);
    var e := Binary(0, Leaf(Void, leaf), leaf, Binary(1, leaf, leaf, Nil));
    assert ChainHas(e.alt, true);
    assert !AlternativeFree(e.left);
    ExpansionIsExactIffClean(e);
  }

  // ---- The code's own nested loops ----

  method ExpandAlternatives(e: Tree) returns (ts: seq<Tree>)
    requires !e.Nil?
    ensures ts == Expand(e)
    decreases Size(e), 2
  {
    var selfs := [e];
    if !e.alt.Nil? {
      var more := ExpandAlternatives(e.alt);
      selfs := [Alone(e)] + more;
    }
    assert selfs == ExpandSelf(e);
    match e {
      case Leaf(_, _) =>
        ts := selfs;
      case Binary(_, l, r, _) =>
        var ls, rs := [], [];
        if !l.Nil? { ls := ExpandAlternatives(l); }
        if !r.Nil? { rs := ExpandAlternatives(r); }
        if |ls| <= 1 && |rs| <= 1 {
          return selfs;
        }
        ts := ExpandBinary(selfs, ls, rs, Size(e));
      case Unary(_, c, _) =>
        var cs := [];
        if !c.Nil? { cs := ExpandAlternatives(c); }
        if |cs| <= 1 {
          return selfs;
        }
        ts := ExpandUnary(selfs, cs, Size(e));
    }
  }

  method CopyWithOperands(e: Tree, ls: seq<Tree>, rs: seq<Tree>) returns (pairs: seq<Tree>)
    requires e.Binary?
    ensures pairs == WithOperands(e, ls, rs)
  {
    pairs := [];
    var l := 0;
    while l < |ls|
      invariant 0 <= l <= |ls|
      invariant pairs + WithOperands(e, ls[l..], rs) == WithOperands(e, ls, rs)
    {
      var row := [];
      var r := 0;
      while r < |rs|
        invariant 0 <= r <= |rs|
        invariant row + WithLeft(e, ls[l], rs[r..]) == WithLeft(e, ls[l], rs)
      {
        assert rs[r..][1..] == rs[r + 1..];
        row := row + [Binary(e.op, ls[l], rs[r], Nil)];
        r := r + 1;
      }
      assert ls[l..][1..] == ls[l + 1..];
      pairs := pairs + row;
      l := l + 1;
    }
  }

  method ExpandBinary(selfs: seq<Tree>, ls: seq<Tree>, rs: seq<Tree>, ghost bound: nat) returns (ts: seq<Tree>)
    requires forall s :: s in selfs ==> !s.Nil? && (s.Binary? || Size(s) < bound)
    requires forall l, r :: l in ls && r in rs ==> 1 + Size(l) + Size(r) <= bound
    ensures ts == PairBinary(selfs, ls, rs, bound)
    decreases bound, 1
  {
    hide Expand, WithOperands;
    ts := [];
    var s := 0;
    while s < |selfs|
      invariant 0 <= s <= |selfs|
      invariant ts + PairBinary(selfs[s..], ls, rs, bound) == PairBinary(selfs, ls, rs, bound)
    {
      var pairs := [];
      assert selfs[s..][1..] == selfs[s + 1..];
      if selfs[s].Binary? {
        pairs := CopyWithOperands(selfs[s], ls, rs);
      } else {
        pairs := ExpandAlternatives(selfs[s]);
      }
      ts := ts + pairs;
      s := s + 1;
    }
  }

  method CopyWithChild(e: Tree, cs: seq<Tree>) returns (copies: seq<Tree>)
    requires e.Unary?
    ensures copies == WithChild(e, cs)
  {
    copies := [];
    var c := 0;
    while c < |cs|
      invariant 0 <= c <= |cs|
      invariant copies + WithChild(e, cs[c..]) == WithChild(e, cs)
    {
      assert cs[c..][1..] == cs[c + 1..];
      copies := copies + [Unary(e.op, cs[c], Nil)];
      c := c + 1;
    }
  }

  method ExpandUnary(selfs: seq<Tree>, cs: seq<Tree>, ghost bound: nat) returns (ts: seq<Tree>)
    requires forall s :: s in selfs ==> !s.Nil? && (s.Unary? || Size(s) < bound)
    requires forall c :: c in cs ==> 1 + Size(c) <= bound
    ensures ts == PairUnary(selfs, cs, bound)
    decreases bound, 1
  {
    hide Expand, WithChild;
    ts := [];
    var s := 0;
    while s < |selfs|
      invariant 0 <= s <= |selfs|
      invariant ts + PairUnary(selfs[s..], cs, bound) == PairUnary(selfs, cs, bound)
    {
      var pairs := [];
      assert selfs[s..][1..] == selfs[s + 1..];
      if selfs[s].Unary? {
        pairs := CopyWithChild(selfs[s], cs);
      } else {
        pairs := ExpandAlternatives(selfs[s]);
      }
      ts := ts + pairs;
      s := s + 1;
    }
  }
}
