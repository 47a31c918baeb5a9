/**
 * Printing types as C declarations, inside out, and reading them back by the precedence rules of
 * section 6.7.5 of ISO C99.
 */
module Declarators {
  import opened Options
  import opened Sequences

  /** One step from a declared name to its type: "pointer to", "array of", "function returning". */
  datatype Deriv = Ptr | Arr(length: Option<nat>) | Fun(params: string)

  /** A bracketed length and a parenthesized parameter list are one token each. */
  datatype Token = Base(name: string) | Name(id: string) | Star | Open | Close | Suffix(d: Deriv)

  // ---- Reading ----

  datatype Parsed = Parsed(chain: seq<Deriv>, id: string, rest: seq<Token>)

  function ParseSuffixes(chain: seq<Deriv>, id: string, ts: seq<Token>): (p: Parsed)
    ensures |p.rest| <= |ts|
    decreases |ts|
  {
    if ts != [] && ts[0].Suffix? then ParseSuffixes(chain + [ts[0].d], id, ts[1..]) else Parsed(chain, id, ts)
  }

  /** direct-declarator: a name or a declarator in parentheses, and what follows it. */
  function ParseDirect(ts: seq<Token>): (p: Option<Parsed>)
    ensures p.Some? ==> |p.value.rest| < |ts|
    decreases |ts|, 0
  {
    if ts == [] then None
    else if ts[0].Name? then Some(ParseSuffixes([], ts[0].id, ts[1..]))
    else if ts[0].Open? then
      var inner := ParseDeclarator(ts[1..]);
      if inner.Some? && inner.value.rest != [] && inner.value.rest[0].Close? then
        Some(ParseSuffixes(inner.value.chain, inner.value.id, inner.value.rest[1..]))
      else None
    else None
  }

  /** declarator: stars apply after everything to the right of them. */
  function ParseDeclarator(ts: seq<Token>): (p: Option<Parsed>)
    ensures p.Some? ==> |p.value.rest| < |ts|
    decreases |ts|, 1
  {
    if ts != [] && ts[0].Star? then
      match ParseDeclarator(ts[1..])
      case None => None
      case Some(p) => Some(p.(chain := p.chain + [Ptr]))
    else ParseDirect(ts)
  }

  datatype Declaration = Declaration(base: string, id: string, chain: seq<Deriv>)

  function Parse(ts: seq<Token>): Option<Declaration> {
    if ts == [] || !ts[0].Base? then None
    else
      match ParseDeclarator(ts[1..])
      case None => None
      case Some(p) => if p.rest == [] then Some(Declaration(ts[0].name, p.id, p.chain)) else None
  }

  // ---- Texts that read as a declarator ----

  predicate NoSuffix(r: seq<Token>) { r == [] || !r[0].Suffix? }

  /** Whatever follows, these tokens are a direct declarator, which takes all suffixes after it. */
  ghost predicate IsDirect(ts: seq<Token>, chain: seq<Deriv>, id: string) {
    ts != [] && !ts[0].Star?
    && forall r: seq<Token> :: ParseDirect(ts + r) == Some(ParseSuffixes(chain, id, r))
  }

  ghost predicate IsDeclarator(ts: seq<Token>, chain: seq<Deriv>, id: string) {
    forall r: seq<Token> :: NoSuffix(r) ==> ParseDeclarator(ts + r) == Some(Parsed(chain, id, r))
  }

  lemma NameIsDirect(id: string)
    ensures IsDirect([Name(id)], [], id)
  {
    forall r: seq<Token> ensures ParseDirect([Name(id)] + r) == Some(ParseSuffixes([], id, r)) {
      assert ([Name(id)] + r)[1..] == r;
    }
  }

  lemma DirectIsDeclarator(ts: seq<Token>, chain: seq<Deriv>, id: string)
    requires IsDirect(ts, chain, id)
    ensures IsDeclarator(ts, chain, id)
  {
    forall r: seq<Token> | NoSuffix(r) ensures ParseDeclarator(ts + r) == Some(Parsed(chain, id, r)) {
      assert ParseDirect(ts + r) == Some(ParseSuffixes(chain, id, r));
    }
  }

  lemma Parenthesized(ts: seq<Token>, chain: seq<Deriv>, id: string)
    requires IsDeclarator(ts, chain, id)
    ensures IsDirect([Open] + ts + [Close], chain, id)
  {
    hide ParseSuffixes;
    var q := [Open] + ts + [Close];
    forall r: seq<Token> ensures ParseDirect(q + r) == Some(ParseSuffixes(chain, id, r)) {
      assert (q + r)[1..] == ts + ([Close] + r);
      assert ([Close] + r)[1..] == r;
      assert ParseDeclarator(ts + ([Close] + r)) == Some(Parsed(chain, id, [Close] + r));
    }
  }

  lemma Suffixed(ts: seq<Token>, chain: seq<Deriv>, id: string, d: Deriv)
    requires IsDirect(ts, chain, id)
    ensures IsDirect(ts + [Suffix(d)], chain + [d], id)
  {
    var q := ts + [Suffix(d)];
    forall r: seq<Token> ensures ParseDirect(q + r) == Some(ParseSuffixes(chain + [d], id, r)) {
      assert q + r == ts + ([Suffix(d)] + r);
      assert ([Suffix(d)] + r)[1..] == r;
      assert ParseDirect(ts + ([Suffix(d)] + r)) == Some(ParseSuffixes(chain, id, [Suffix(d)] + r));
    }
  }

  lemma Starred(ts: seq<Token>, chain: seq<Deriv>, id: string)
    requires IsDeclarator(ts, chain, id)
    ensures IsDeclarator([Star] + ts, chain + [Ptr], id)
  {
    forall r: seq<Token> | NoSuffix(r) ensures ParseDeclarator([Star] + ts + r) == Some(Parsed(chain + [Ptr], id, r)) {
      assert ([Star] + ts + r)[1..] == ts + r;
      assert ParseDeclarator(ts + r) == Some(Parsed(chain, id, r));
    }
  }

  lemma ReadsBack(base: string, ts: seq<Token>, chain: seq<Deriv>, id: string)
    requires IsDeclarator(ts, chain, id)
    ensures Parse([Base(base)] + ts) == Some(Declaration(base, id, chain))
  {
    assert ([Base(base)] + ts)[1..] == ts + [];
    assert NoSuffix([]);
    assert ParseDeclarator(ts + []) == Some(Parsed(chain, id, []));
  }

  // ---- Printing ----

  /** A name being wrapped, and how many stars and brackets were added since the last parentheses. */
  datatype Wrapped = Wrapped(name: seq<Token>, ptr: nat, arr: nat)

  function Wrap(w: Wrapped, d: Deriv): Wrapped {
    match d
    case Arr(_) =>
      if w.ptr > 0 then Wrapped([Open] + w.name + [Close] + [Suffix(d)], 0, w.arr + 1)
      else Wrapped(w.name + [Suffix(d)], 0, w.arr + 1)
    case Ptr =>
      if w.arr > 0 then Wrapped([Star] + ([Open] + w.name + [Close]), w.ptr + 1, 0)
      else Wrapped([Star] + w.name, w.ptr + 1, 0)
    case Fun(_) => Wrapped([Open] + w.name + [Close] + [Suffix(d)], 0, 0)
  }

  function WrapAll(chain: seq<Deriv>, name: seq<Token>): Wrapped {
    if chain == [] then Wrapped(name, 0, 0) else Wrap(WrapAll(chain[..|chain| - 1], name), chain[|chain| - 1])
  }

  /** How a step wraps a name depends on the one before it only: a change of direction needs parentheses. */
  lemma WrapFollows(chain: seq<Deriv>, name: seq<Token>)
    requires chain != []
    ensures var front, d := chain[..|chain| - 1], chain[|chain| - 1];
            var inner := WrapAll(front, name).name;
            var turns := d.Fun? || (front != [] && ((front[|front| - 1].Ptr? && d.Arr?)
                                                    || (front[|front| - 1].Arr? && d.Ptr?)));
            var core := if turns then [Open] + inner + [Close] else inner;
            WrapAll(chain, name).name == if d.Ptr? then [Star] + core else core + [Suffix(d)]
  {
    CountersMean(chain[..|chain| - 1], name);
  }

  lemma CountersMean(chain: seq<Deriv>, name: seq<Token>)
    ensures var w := WrapAll(chain, name);
            && (w.ptr > 0 <==> chain != [] && chain[|chain| - 1].Ptr?)
            && (w.arr > 0 <==> chain != [] && chain[|chain| - 1].Arr?)
  {
  }

  /** The first function type from place `i` on: what is left when pointers and arrays are followed. */
  function NextFun(chain: seq<Deriv>, i: nat): (j: nat)
    requires i <= |chain|
    ensures i <= j <= |chain|
    ensures j < |chain| ==> chain[j].Fun?
    ensures forall k :: i <= k < j ==> !chain[k].Fun?
    decreases |chain| - i
  {
    if i == |chain| || chain[i].Fun? then i else NextFun(chain, i + 1)
  }

  /** `prettyName` of the type at place `i`, for a name that may already be wrapped. */
  function TypeText(base: string, chain: seq<Deriv>, i: nat, name: seq<Token>): seq<Token>
    requires i <= |chain|
    decreases |chain| - i, 1
  {
    if i == |chain| then [Base(base)] + name
    else
      var f := NextFun(chain, i + 1);
      match chain[i]
      case Fun(_) => FuncText(base, chain, i, name, None)
      case Ptr =>
        if f < |chain| then FuncText(base, chain, f, name, Some(i))
        else TypeText(base, chain, i + 1, [Star] + name)
      case Arr(_) =>
        if f < |chain| then FuncText(base, chain, f, name + [Suffix(chain[i])], Some(i))
        else TypeText(base, chain, i + 1, name + [Suffix(chain[i])])
  }

  /** `prettyName` of the function type at place `i`, referred to by the types from place `from` on. */
  function FuncText(base: string, chain: seq<Deriv>, i: nat, name: seq<Token>, from: Option<nat>): seq<Token>
    requires i < |chain| && (from.Some? ==> from.value <= i)
    decreases |chain| - i, 0
  {
    var f := NextFun(chain, i + 1);
    if f < |chain| then FuncText(base, chain, f, name, from)
    else
      TypeText(base, chain, i + 1, [])
      + ([Open] + (if from.None? then name else WrapAll(chain[from.value..i], name).name) + [Close]
                + [Suffix(chain[i])])
  }

  function VariableText(base: string, chain: seq<Deriv>, id: string): seq<Token> {
    var f := NextFun(chain, 0);
    if f < |chain| then FuncText(base, chain, f, [Name(id)], Some(0)) else TypeText(base, chain, 0, [Name(id)])
  }

  // ---- Wrapping a name ----

  lemma {:induction false} WrapReads(chain: seq<Deriv>, name: seq<Token>, start: seq<Deriv>, id: string)
    requires IsDirect(name, start, id)
    ensures var w := WrapAll(chain, name);
            IsDeclarator(w.name, start + chain, id) && (w.ptr == 0 ==> IsDirect(w.name, start + chain, id))
  {
    hide IsDirect, IsDeclarator;
    if chain == [] {
      assert start + chain == start;
      DirectIsDeclarator(name, start, id);
    } else {
      var front, d := chain[..|chain| - 1], chain[|chain| - 1];
      WrapReads(front, name, start, id);
      var w := WrapAll(front, name);
      assert start + chain == start + front + [d];
      Parenthesized(w.name, start + front, id);
      var q := [Open] + w.name + [Close];
      if d.Ptr? {
        DirectIsDeclarator(q, start + front, id);
        Starred(q, start + front, id);
        Starred(w.name, start + front, id);
      } else {
        Suffixed(q, start + front, id, d);
        DirectIsDeclarator(q + [Suffix(d)], start + chain, id);
        if w.ptr == 0 {
          Suffixed(w.name, start + front, id, d);
          DirectIsDeclarator(w.name + [Suffix(d)], start + chain, id);
        }
      }
    }
  }

  // ---- The part without function types ----

  function Stars(n: nat): (ts: seq<Token>)
    ensures |ts| == n && forall k :: 0 <= k < n ==> ts[k] == Star
  {
    seq(n, i => Star)
  }

  function Pointers(chain: seq<Deriv>): nat {
    if chain == [] then 0 else (if chain[0].Ptr? then 1 else 0) + Pointers(chain[1..])
  }

  /** The array and function steps of a chain, in order. */
  function Others(chain: seq<Deriv>): seq<Deriv> {
    if chain == [] then [] else (if chain[0].Ptr? then [] else [chain[0]]) + Others(chain[1..])
  }

  function Suffixes(ds: seq<Deriv>): (ts: seq<Token>)
    ensures |ts| == |ds| && forall k :: 0 <= k < |ds| ==> ts[k] == Suffix(ds[k])
  {
    seq(|ds|, i requires 0 <= i < |ds| => Suffix(ds[i]))
  }

  lemma SuffixesFront(stars: seq<Token>, name: seq<Token>, d: Deriv, ds: seq<Deriv>)
    ensures stars + (name + [Suffix(d)]) + Suffixes(ds) == stars + name + Suffixes([d] + ds)
  {
  }

  lemma {:induction false} PlainText(base: string, chain: seq<Deriv>, i: nat, name: seq<Token>)
    requires i <= |chain| && NextFun(chain, i) == |chain|
    ensures TypeText(base, chain, i, name) ==
            [Base(base)] + (Stars(Pointers(chain[i..])) + name + Suffixes(Others(chain[i..])))
    decreases |chain| - i
  {
    if i == |chain| {
      assert Stars(0) + name + Suffixes([]) == name;
    } else {
      var rest, d := chain[i + 1..], chain[i];
      assert chain[i..][1..] == rest && chain[i..][0] == d;
      if d.Ptr? {
        PlainText(base, chain, i + 1, [Star] + name);
        assert Stars(Pointers(rest)) + ([Star] + name) + Suffixes(Others(rest)) ==
               Stars(Pointers(rest) + 1) + name + Suffixes(Others(rest));
      } else {
        PlainText(base, chain, i + 1, name + [Suffix(d)]);
        SuffixesFront(Stars(Pointers(rest)), name, d, Others(rest));
      }
    }
  }

  function PtrChain(n: nat): (c: seq<Deriv>)
    ensures |c| == n && forall k :: 0 <= k < n ==> c[k] == Ptr
  {
    seq(n, i => Ptr)
  }

  lemma {:induction false} StarsRead(n: nat, ts: seq<Token>, chain: seq<Deriv>, id: string)
    requires IsDeclarator(ts, chain, id)
    ensures IsDeclarator(Stars(n) + ts, chain + PtrChain(n), id)
  {
    hide IsDeclarator;
    if n == 0 {
      assert Stars(0) + ts == ts && chain + PtrChain(0) == chain;
    } else {
      StarsRead(n - 1, ts, chain, id);
      Starred(Stars(n - 1) + ts, chain + PtrChain(n - 1), id);
      assert [Star] + (Stars(n - 1) + ts) == Stars(n) + ts;
      assert chain + PtrChain(n - 1) + [Ptr] == chain + PtrChain(n);
    }
  }

  lemma {:induction false} SuffixesRead(ts: seq<Token>, chain: seq<Deriv>, id: string, ds: seq<Deriv>)
    requires IsDirect(ts, chain, id)
    ensures IsDirect(ts + Suffixes(ds), chain + ds, id)
  {
    hide IsDirect;
    if ds == [] {
      assert ts + Suffixes(ds) == ts && chain + ds == chain;
    } else {
      var front, d := ds[..|ds| - 1], ds[|ds| - 1];
      SuffixesRead(ts, chain, id, front);
      Suffixed(ts + Suffixes(front), chain + front, id, d);
      assert ts + Suffixes(front) + [Suffix(d)] == ts + Suffixes(ds);
      assert chain + front + [d] == chain + ds;
    }
  }

  /** No pointer is followed by an array further on. */
  predicate PointersLast(chain: seq<Deriv>) {
    forall j, k :: 0 <= j < k < |chain| && chain[j].Ptr? ==> chain[k].Ptr?
  }

  lemma {:induction false} SplitIsChainIff(chain: seq<Deriv>)
    ensures Others(chain) + PtrChain(Pointers(chain)) == chain <==> PointersLast(chain)
    ensures Others(chain) == [] <==> forall k :: 0 <= k < |chain| ==> chain[k].Ptr?
  {
    if chain != [] {
      var rest := chain[1..];
      SplitIsChainIff(rest);
      var split := Others(rest) + PtrChain(Pointers(rest));
      if chain[0].Ptr? {
        assert Others(chain) == Others(rest);
        if PointersLast(chain) {
          assert forall k :: 0 <= k < |rest| ==> rest[k] == chain[k + 1] && chain[k + 1].Ptr?;
        }
        if Others(rest) != [] {
          OthersIsOther(rest, 0);
        }
      } else {
        assert Others(chain) + PtrChain(Pointers(chain)) == [chain[0]] + split;
        assert chain == [chain[0]] + rest;
      }
    }
  }

  lemma {:induction false} OthersIsOther(chain: seq<Deriv>, k: nat)
    requires k < |Others(chain)|
    ensures !Others(chain)[k].Ptr?
  {
    if chain[0].Ptr? {
      OthersIsOther(chain[1..], k);
    } else if k > 0 {
      OthersIsOther(chain[1..], k - 1);
    }
  }

  // ---- The part with function types ----

  /** Following function types from place `i` on as far as pointers and arrays lead to another one. */
  function LastFun(chain: seq<Deriv>, i: nat): (l: nat)
    requires i < |chain| && chain[i].Fun?
    ensures i <= l < |chain| && chain[l].Fun? && NextFun(chain, l + 1) == |chain|
    decreases |chain| - i
  {
    var f := NextFun(chain, i + 1);
    if f < |chain| then LastFun(chain, f) else i
  }

  lemma {:induction false} DelegatesToLast(base: string, chain: seq<Deriv>, i: nat, name: seq<Token>, from: Option<nat>)
    requires i < |chain| && chain[i].Fun? && (from.Some? ==> from.value <= i)
    ensures FuncText(base, chain, i, name, from) == FuncText(base, chain, LastFun(chain, i), name, from)
    decreases |chain| - i
  {
    var f := NextFun(chain, i + 1);
    if f < |chain| { DelegatesToLast(base, chain, f, name, from); }
  }

  /** A bracket before the name cannot be read. */
  lemma {:induction false} BracketFirstFails(n: nat, ds: seq<Deriv>, r: seq<Token>)
    requires ds != []
    ensures ParseDeclarator(Stars(n) + Suffixes(ds) + r).None?
  {
    var ts := Stars(n) + Suffixes(ds) + r;
    if n == 0 {
      assert ts[0] == Suffixes(ds)[0];
    } else {
      BracketFirstFails(n - 1, ds, r);
      assert ts[1..] == Stars(n - 1) + Suffixes(ds) + r;
      assert ts[0] == Star;
    }
  }

  lemma JoinText(base: string, k: nat, ds: seq<Deriv>, d: seq<Token>)
    ensures [Base(base)] + (Stars(k) + [] + Suffixes(ds)) + d == [Base(base)] + (Stars(k) + Suffixes(ds) + d)
  {
  }

  function Middle(chain: seq<Deriv>, l: nat, from: Option<nat>): seq<Deriv>
    requires l < |chain| && (from.Some? ==> from.value <= l)
  {
    if from.None? then [] else chain[from.value..l]
  }

  function Inner(chain: seq<Deriv>, l: nat, name: seq<Token>, from: Option<nat>): seq<Token>
    requires l < |chain| && (from.Some? ==> from.value <= l)
  {
    [Open] + (if from.None? then name else WrapAll(chain[from.value..l], name).name) + [Close] + [Suffix(chain[l])]
  }

  /** The declarator around which the text of the last function type puts the return type. */
  lemma FunctionReads(chain: seq<Deriv>, l: nat, name: seq<Token>, from: Option<nat>, start: seq<Deriv>, id: string)
    requires l < |chain| && (from.Some? ==> from.value <= l) && IsDirect(name, start, id)
    ensures IsDirect(Inner(chain, l, name, from), start + Middle(chain, l, from) + [chain[l]], id)
  {
    hide IsDirect, IsDeclarator;
    var w := if from.None? then name else WrapAll(chain[from.value..l], name).name;
    var inner := start + Middle(chain, l, from);
    if from.None? {
      assert inner == start;
      DirectIsDeclarator(name, start, id);
    } else {
      WrapReads(chain[from.value..l], name, start, id);
    }
    Parenthesized(w, inner, id);
    Suffixed([Open] + w + [Close], inner, id, chain[l]);
  }

  lemma FuncTextIs(base: string, chain: seq<Deriv>, i: nat, name: seq<Token>, from: Option<nat>)
    requires i < |chain| && chain[i].Fun? && (from.Some? ==> from.value <= i)
    ensures var l := LastFun(chain, i);
            FuncText(base, chain, i, name, from) ==
            [Base(base)] + (Stars(Pointers(chain[l + 1..])) + Suffixes(Others(chain[l + 1..]))
                      + Inner(chain, l, name, from))
  {
    hide WrapAll;
    var l := LastFun(chain, i);
    var tail := chain[l + 1..];
    DelegatesToLast(base, chain, i, name, from);
    PlainText(base, chain, l + 1, []);
    JoinText(base, Pointers(tail), Others(tail), Inner(chain, l, name, from));
  }

  lemma AroundReads(base: string, k: nat, ds: seq<Deriv>, d: seq<Token>, inner: seq<Deriv>, id: string)
    requires IsDirect(d, inner, id)
    ensures Parse([Base(base)] + (Stars(k) + Suffixes(ds) + d)) ==
            if ds == [] then Some(Declaration(base, id, inner + PtrChain(k))) else None
  {
    hide IsDirect, IsDeclarator, Parse;
    if ds == [] {
      DirectIsDeclarator(d, inner, id);
      StarsRead(k, d, inner, id);
      ReadsBack(base, Stars(k) + d, inner + PtrChain(k), id);
      assert Stars(k) + Suffixes([]) + d == Stars(k) + d;
    } else {
      CannotRead(base, k, ds, d);
    }
  }

  /** What the text of a function type reads as, if it can be read. */
  lemma FuncTextReads(base: string, chain: seq<Deriv>, i: nat, name: seq<Token>, from: Option<nat>,
                      start: seq<Deriv>, id: string)
    requires i < |chain| && chain[i].Fun? && (from.Some? ==> from.value <= i) && IsDirect(name, start, id)
    ensures var l := LastFun(chain, i);
            Parse(FuncText(base, chain, i, name, from)) ==
            if Others(chain[l + 1..]) == [] then
              Some(Declaration(base, id, start + Middle(chain, l, from) + [chain[l]]
                        + PtrChain(Pointers(chain[l + 1..]))))
            else None
  {
    hide IsDirect, IsDeclarator, WrapAll, FuncText, TypeText, Parse, Others, Pointers;
    var l := LastFun(chain, i);
    FuncTextIs(base, chain, i, name, from);
    FunctionReads(chain, l, name, from, start, id);
    AroundReads(base, Pointers(chain[l + 1..]), Others(chain[l + 1..]), Inner(chain, l, name, from),
                start + Middle(chain, l, from) + [chain[l]], id);
  }

  lemma CannotRead(base: string, k: nat, ds: seq<Deriv>, d: seq<Token>)
    requires ds != []
    ensures Parse([Base(base)] + (Stars(k) + Suffixes(ds) + d)) == None
  {
    var inner := Stars(k) + Suffixes(ds) + d;
    BracketFirstFails(k, ds, d);
    assert ([Base(base)] + inner)[1..] == inner;
  }

  lemma SplitReads(base: string, k: nat, ds: seq<Deriv>, id: string)
    ensures Parse([Base(base)] + (Stars(k) + [Name(id)] + Suffixes(ds))) ==
              Some(Declaration(base, id, ds + PtrChain(k)))
  {
    hide IsDirect, IsDeclarator, Parse;
    NameIsDirect(id);
    SuffixesRead([Name(id)], [], id, ds);
    assert [] + ds == ds;
    var d := [Name(id)] + Suffixes(ds);
    DirectIsDeclarator(d, ds, id);
    StarsRead(k, d, ds, id);
    ReadsBack(base, Stars(k) + d, ds + PtrChain(k), id);
    assert Stars(k) + d == Stars(k) + [Name(id)] + Suffixes(ds);
  }

  lemma PlainReads(base: string, chain: seq<Deriv>, id: string)
    requires NextFun(chain, 0) == |chain|
    ensures Parse(TypeText(base, chain, 0, [Name(id)])) ==
            Some(Declaration(base, id, Others(chain) + PtrChain(Pointers(chain))))
  {
    hide TypeText, Parse, Others, Pointers;
    PlainText(base, chain, 0, [Name(id)]);
    assert chain[0..] == chain;
    SplitReads(base, Pointers(chain), Others(chain), id);
  }

  // ---- When the text reads back ----

  predicate AllPointers(chain: seq<Deriv>) {
    forall k :: 0 <= k < |chain| ==> chain[k].Ptr?
  }

  /** Only pointers follow the last function type; without one, no pointer comes before an array. */
  predicate Printable(chain: seq<Deriv>) {
    var f := NextFun(chain, 0);
    if f < |chain| then AllPointers(chain[LastFun(chain, f) + 1..]) else PointersLast(chain)
  }

  lemma TailOfPointers(chain: seq<Deriv>, from: nat, l: nat)
    requires from <= l < |chain|
    ensures Others(chain[l + 1..]) == [] <==> AllPointers(chain[l + 1..])
    ensures AllPointers(chain[l + 1..]) ==>
              chain[from..l] + [chain[l]] + PtrChain(Pointers(chain[l + 1..])) == chain[from..]
  {
    var tail := chain[l + 1..];
    SplitIsChainIff(tail);
    if AllPointers(tail) {
      assert PointersLast(tail);
      assert [] + PtrChain(Pointers(tail)) == PtrChain(Pointers(tail));
      assert chain[from..] == chain[from..l] + [chain[l]] + tail;
    }
  }

  /** A variable's declaration reads back as its type exactly if the type is printable. */
  lemma VariableRoundTrip(base: string, chain: seq<Deriv>, id: string)
    ensures Parse(VariableText(base, chain, id)) == Some(Declaration(base, id, chain)) <==> Printable(chain)
  {
    hide FuncText, TypeText, Parse, IsDirect, Others, Pointers;
    var f := NextFun(chain, 0);
    NameIsDirect(id);
    if f < |chain| {
      FuncTextReads(base, chain, f, [Name(id)], Some(0), [], id);
      var l := LastFun(chain, f);
      TailOfPointers(chain, 0, l);
      assert [] + chain[0..l] + [chain[l]] == chain[0..l] + [chain[l]];
      assert chain[0..] == chain;
    } else {
      PlainReads(base, chain, id);
      SplitIsChainIff(chain);
    }
  }

  /**
   * When a type's own name is printed for a variable name: an array leading to a function type
   * repeats its bound, and a function type leaves out all function types but the last.
   */
  predicate TypePrintable(chain: seq<Deriv>) {
    chain == []
    || match chain[0]
       case Ptr => Printable(chain)
       case Arr(_) => NextFun(chain, 0) == |chain| && PointersLast(chain)
       case Fun(_) => AllPointers(chain[1..])
  }

  lemma TypeRoundTrip(base: string, chain: seq<Deriv>, id: string)
    ensures Parse(TypeText(base, chain, 0, [Name(id)])) == Some(Declaration(base, id, chain)) <==> TypePrintable(chain)
  {
    if chain == [] || NextFun(chain, 0) == |chain| {
      PlainReads(base, chain, id);
      SplitIsChainIff(chain);
    } else {
      match chain[0]
      case Ptr => VariableRoundTrip(base, chain, id);
      case Arr(_) => ArrayRepeatsBound(base, chain, id);
      case Fun(_) => FunctionDropsOthers(base, chain, id);
    }
  }

  lemma ArrayRepeatsBound(base: string, chain: seq<Deriv>, id: string)
    requires chain != [] && chain[0].Arr? && NextFun(chain, 0) < |chain|
    ensures Parse(TypeText(base, chain, 0, [Name(id)])) != Some(Declaration(base, id, chain))
    ensures AllPointers(chain[LastFun(chain, NextFun(chain, 0)) + 1..]) ==>
              Parse(TypeText(base, chain, 0, [Name(id)])) == Some(Declaration(base, id, [chain[0]] + chain))
  {
    hide TypeText, Parse, AllPointers, LastFun;
    ArrayTextReads(base, chain, id);
    assert |[chain[0]] + chain| != |chain|;
  }

  lemma ArrayTextReads(base: string, chain: seq<Deriv>, id: string)
    requires chain != [] && chain[0].Arr? && NextFun(chain, 0) < |chain|
    ensures Parse(TypeText(base, chain, 0, [Name(id)])) ==
            if AllPointers(chain[LastFun(chain, NextFun(chain, 0)) + 1..])
            then Some(Declaration(base, id, [chain[0]] + chain))
            else None
  {
    hide FuncText, Parse, IsDirect, Others, Pointers, PtrChain, AllPointers, LastFun;
    var f := NextFun(chain, 1);
    var l := LastFun(chain, f);
    NameIsDirect(id);
    Suffixed([Name(id)], [], id, chain[0]);
    assert [] + [chain[0]] == [chain[0]];
    FuncTextReads(base, chain, f, [Name(id)] + [Suffix(chain[0])], Some(0), [chain[0]], id);
    TailOfPointers(chain, 0, l);
    AssociateFirst([chain[0]], chain[0..l], [chain[l]], PtrChain(Pointers(chain[l + 1..])));
    assert chain[0..] == chain;
  }

  lemma FunctionDropsOthers(base: string, chain: seq<Deriv>, id: string)
    requires chain != [] && chain[0].Fun?
    ensures Parse(TypeText(base, chain, 0, [Name(id)])) == Some(Declaration(base, id, chain)) <==>
              AllPointers(chain[1..])
    ensures var l := LastFun(chain, 0);
            AllPointers(chain[l + 1..]) ==>
                      Parse(TypeText(base, chain, 0, [Name(id)])) == Some(Declaration(base, id, chain[l..]))
  {
    hide TypeText, Parse;
    var l := LastFun(chain, 0);
    FunctionTextReads(base, chain, id);
    assert chain[0..] == chain;
    if l > 0 {
      assert chain[1..][l - 1] == chain[l];
      assert |chain[l..]| != |chain|;
    }
  }

  lemma FunctionTextReads(base: string, chain: seq<Deriv>, id: string)
    requires chain != [] && chain[0].Fun?
    ensures var l := LastFun(chain, 0);
            Parse(TypeText(base, chain, 0, [Name(id)])) ==
            if AllPointers(chain[l + 1..]) then Some(Declaration(base, id, chain[l..])) else None
  {
    hide FuncText, Parse, IsDirect, Others, Pointers, AllPointers, LastFun;
    var l := LastFun(chain, 0);
    NameIsDirect(id);
    FuncTextReads(base, chain, 0, [Name(id)], None, [], id);
    TailOfPointers(chain, l, l);
    assert chain[l..l] == [] && [] + [] + [chain[l]] == [] + [chain[l]];
  }

  /** A pointer to an array of three is printed as an array of three pointers. */
  lemma PointerToArrayMisreads(base: string, id: string)
    ensures Parse(TypeText(base, [Ptr, Arr(Some(3))], 0, [Name(id)])) ==
            Some(Declaration(base, id, [Arr(Some(3)), Ptr]))
  {
    hide TypeText, Parse;
    var chain: seq<Deriv> := [Ptr, Arr(Some(3))];
    PlainReads(base, chain, id);
    assert chain[1..] == [Arr(Some(3))] && chain[1..][1..] == [];
    assert Others(chain) == Others(chain[1..]) == [Arr(Some(3))] + Others([]) == [Arr(Some(3))];
    assert Pointers(chain) == 1 + Pointers(chain[1..]) == 1;
    assert [Arr(Some(3))] + PtrChain(1) == [Arr(Some(3)), Ptr];
  }

  // ---- The coloured form ----

  /** The coloured text of a type without function types: the steps in reverse, and no name. */
  function ColorTail(base: string, chain: seq<Deriv>, i: nat): seq<Token>
    requires i <= |chain|
    decreases |chain| - i
  {
    if i == |chain| then [Base(base)]
    else ColorTail(base, chain, i + 1) + [if chain[i].Ptr? then Star else Suffix(chain[i])]
  }

  function ColorFuncText(base: string, chain: seq<Deriv>, i: nat, name: seq<Token>, from: Option<nat>): seq<Token>
    requires i < |chain| && (from.Some? ==> from.value <= i)
    decreases |chain| - i
  {
    var f := NextFun(chain, i + 1);
    if f < |chain| then ColorFuncText(base, chain, f, name, from)
    else ColorTail(base, chain, i + 1) + Inner(chain, i, name, from)
  }

  /** The coloured text of a type that leads to a function type: each type on the way is wrapped once. */
  function ColorTypeText(base: string, chain: seq<Deriv>, name: seq<Token>): seq<Token>
    requires NextFun(chain, 0) < |chain|
  {
    var f := NextFun(chain, 1);
    if f < |chain| then ColorFuncText(base, chain, f, name, Some(0)) else ColorFuncText(base, chain, 0, name, None)
  }

  lemma {:induction false} ColorDelegates(base: string, chain: seq<Deriv>, i: nat, name: seq<Token>, from: Option<nat>)
    requires i < |chain| && chain[i].Fun? && (from.Some? ==> from.value <= i)
    ensures ColorFuncText(base, chain, i, name, from) ==
            ColorTail(base, chain, LastFun(chain, i) + 1) + Inner(chain, LastFun(chain, i), name, from)
    decreases |chain| - i
  {
    hide ColorTail, Inner;
    var f := NextFun(chain, i + 1);
    if f < |chain| { ColorDelegates(base, chain, f, name, from); }
  }

  predicate StarOrSuffix(ts: seq<Token>) {
    forall k :: 0 <= k < |ts| ==> ts[k].Star? || ts[k].Suffix?
  }

  /** The tokens after the base are stars for pointers only, or contain a bracket. */
  lemma {:induction false} ColorTailIs(base: string, chain: seq<Deriv>, i: nat) returns (ts: seq<Token>)
    requires i <= |chain|
    ensures ColorTail(base, chain, i) == [Base(base)] + ts && StarOrSuffix(ts)
    ensures if AllPointers(chain[i..]) then ts == Stars(Pointers(chain[i..])) else HasSuffix(ts)
    decreases |chain| - i
  {
    if i == |chain| {
      ts := [];
    } else {
      var rest := ColorTailIs(base, chain, i + 1);
      assert chain[i..][1..] == chain[i + 1..];
      ts := rest + [if chain[i].Ptr? then Star else Suffix(chain[i])];
      assert ColorTail(base, chain, i) == [Base(base)] + ts;
      assert AllPointers(chain[i..]) <==> chain[i].Ptr? && AllPointers(chain[i + 1..]) by {
        PointersFront(chain, i);
      }
      hide AllPointers, Pointers;
      TailGrows(rest, ts[|rest|]);
    }
  }

  lemma TailGrows(rest: seq<Token>, last: Token)
    requires last.Star? || last.Suffix?
    ensures HasSuffix(rest + [last]) <==> HasSuffix(rest) || last.Suffix?
  {
    var ts := rest + [last];
    if HasSuffix(rest) {
      var k :| 0 <= k < |rest| && rest[k].Suffix?;
      assert ts[k].Suffix?;
    }
    assert ts[|rest|] == last;
  }

  predicate HasSuffix(ts: seq<Token>) { exists k :: 0 <= k < |ts| && ts[k].Suffix? }

  lemma PointersFront(chain: seq<Deriv>, i: nat)
    requires i < |chain|
    ensures AllPointers(chain[i..]) <==> chain[i].Ptr? && AllPointers(chain[i + 1..])
  {
    var all, rest := chain[i..], chain[i + 1..];
    assert all == [chain[i]] + rest;
    if AllPointers(all) {
      assert all[0].Ptr?;
      forall k | 0 <= k < |rest| ensures rest[k].Ptr? { assert all[k + 1].Ptr?; }
    }
  }

  lemma {:induction false} BracketFails(ts: seq<Token>, r: seq<Token>)
    requires StarOrSuffix(ts) && HasSuffix(ts)
    ensures ParseDeclarator(ts + r).None?
    decreases |ts|
  {
    assert (ts + r)[1..] == ts[1..] + r;
    if ts[0].Star? {
      var k :| 0 <= k < |ts| && ts[k].Suffix?;
      assert ts[1..][k - 1].Suffix?;
      BracketFails(ts[1..], r);
    }
  }

  /** Coloured or not, the text of a function type reads as the same declaration, or neither can be read. */
  lemma ColorReadsAlike(base: string, chain: seq<Deriv>, i: nat, name: seq<Token>, from: Option<nat>,
                        start: seq<Deriv>, id: string)
    requires i < |chain| && chain[i].Fun? && (from.Some? ==> from.value <= i) && IsDirect(name, start, id)
    ensures Parse(ColorFuncText(base, chain, i, name, from)) == Parse(FuncText(base, chain, i, name, from))
    ensures AllPointers(chain[LastFun(chain, i) + 1..]) ==>
              ColorFuncText(base, chain, i, name, from) == FuncText(base, chain, i, name, from)
  {
    hide IsDirect, FuncText, ColorFuncText, TypeText, ColorTail, Others, Pointers, Inner;
    var l := LastFun(chain, i);
    var tail, d := chain[l + 1..], Inner(chain, l, name, from);
    ColorDelegates(base, chain, i, name, from);
    FuncTextIs(base, chain, i, name, from);
    SplitIsChainIff(tail);
    var ts := ColorTailIs(base, chain, l + 1);
    assert [Base(base)] + ts + d == [Base(base)] + (ts + d);
    if AllPointers(tail) {
      assert Stars(Pointers(tail)) + Suffixes([]) == Stars(Pointers(tail));
    } else {
      FuncTextReads(base, chain, i, name, from, start, id);
      BracketFails(ts, d);
      assert ([Base(base)] + (ts + d))[1..] == ts + d;
    }
  }

  lemma SameLastFun(chain: seq<Deriv>)
    requires NextFun(chain, 0) < |chain| && NextFun(chain, 1) < |chain|
    ensures LastFun(chain, NextFun(chain, 0)) == LastFun(chain, NextFun(chain, 1))
  {
  }

  /** Coloured, a type that leads to a function type reads as the declaration of a variable of that type. */
  lemma ColorReadsAsVariable(base: string, chain: seq<Deriv>, id: string)
    requires NextFun(chain, 0) < |chain|
    ensures Parse(ColorTypeText(base, chain, [Name(id)])) == Parse(VariableText(base, chain, id))
  {
    hide FuncText, ColorFuncText, Parse, IsDirect, LastFun;
    NameIsDirect(id);
    var f := NextFun(chain, 1);
    if f < |chain| {
      ColorReadsAlike(base, chain, f, [Name(id)], Some(0), [], id);
      DelegatesToLast(base, chain, f, [Name(id)], Some(0));
      DelegatesToLast(base, chain, NextFun(chain, 0), [Name(id)], Some(0));
      SameLastFun(chain);
    } else {
      ColorReadsAlike(base, chain, 0, [Name(id)], None, [], id);
      FromItself(base, chain, [Name(id)]);
    }
  }

  lemma FromItself(base: string, chain: seq<Deriv>, name: seq<Token>)
    requires chain != [] && NextFun(chain, 1) == |chain|
    ensures FuncText(base, chain, 0, name, None) == FuncText(base, chain, 0, name, Some(0))
  {
    hide TypeText;
    assert chain[0..0] == [];
  }

  /** The coloured text of a type that leads to a function type reads back exactly if it is printable. */
  lemma ColorRoundTrip(base: string, chain: seq<Deriv>, id: string)
    requires NextFun(chain, 0) < |chain|
    ensures Parse(ColorTypeText(base, chain, [Name(id)])) == Some(Declaration(base, id, chain)) <==> Printable(chain)
  {
    hide ColorTypeText, VariableText, Parse, Printable;
    ColorReadsAsVariable(base, chain, id);
    VariableRoundTrip(base, chain, id);
  }

  // ---- The loops ----

  lemma WrapNext(chain: seq<Deriv>, from: nat, at: nat, name: seq<Token>)
    requires from <= at < |chain|
    ensures WrapAll(chain[from..at + 1], name) == Wrap(WrapAll(chain[from..at], name), chain[at])
  {
    assert chain[from..at + 1][..at - from] == chain[from..at];
  }

  lemma WrapNone(chain: seq<Deriv>, from: nat, name: seq<Token>)
    requires from <= |chain|
    ensures WrapAll(chain[from..from], name) == Wrapped(name, 0, 0)
  {
  }

  /** `prettyName` of a pointer, array, function or other type. */
  method PrettyName(base: string, chain: seq<Deriv>, i: nat, name: seq<Token>) returns (text: seq<Token>)
    requires i <= |chain|
    ensures text == TypeText(base, chain, i, name)
    decreases |chain| - i, 1
  {
    if i == |chain| {
      return [Base(base)] + name;
    }
    var f := NextFun(chain, i + 1);
    match chain[i]
    case Fun(_) => text := PrettyFuncName(base, chain, i, name, None);
    case Ptr =>
      if f < |chain| {
        text := PrettyFuncName(base, chain, f, name, Some(i));
      } else {
        text := PrettyName(base, chain, i + 1, [Star] + name);
      }
    case Arr(_) =>
      var ret := name + [Suffix(chain[i])];
      if f < |chain| {
        text := PrettyFuncName(base, chain, f, ret, Some(i));
      } else {
        text := PrettyName(base, chain, i + 1, ret);
      }
  }

  /** `prettyName` of a function type referred to from place `from` on. */
  method PrettyFuncName(base: string, chain: seq<Deriv>, i: nat, varName: seq<Token>, from: Option<nat>)
    returns (text: seq<Token>)
    requires i < |chain| && (from.Some? ==> from.value <= i)
    ensures text == FuncText(base, chain, i, varName, from)
    decreases |chain| - i, 0
  {
    hide TypeText, WrapAll;
    var f := NextFun(chain, i + 1);
    if f < |chain| {
      text := PrettyFuncName(base, chain, f, varName, from);
      return;
    }
    var rt := PrettyName(base, chain, i + 1, []);
    var name, ptr: nat, arr: nat := varName, 0, 0;
    if from.Some? {
      var at := from.value;
      WrapNone(chain, at, varName);
      while at != i
        invariant from.value <= at <= i
        invariant Wrapped(name, ptr, arr) == WrapAll(chain[from.value..at], varName)
      {
        WrapNext(chain, from.value, at, varName);
        match chain[at] {
          case Arr(_) =>
            if ptr > 0 {
              name := [Open] + name + [Close];
              ptr := 0;
            }
            name := name + [Suffix(chain[at])];
            arr := arr + 1;
          case Ptr =>
            if arr > 0 {
              name := [Open] + name + [Close];
              arr := 0;
            }
            name := [Star] + name;
            ptr := ptr + 1;
          case Fun(_) =>
            name := [Open] + name + [Close] + [Suffix(chain[at])];
            ptr, arr := 0, 0;
        }
        at := at + 1;
      }
    }
    text := rt + ([Open] + name + [Close] + [Suffix(chain[i])]);
  }

  datatype Color = NoColor | TypeColor | NumberColor | KeywordColor | ParamsColor | NameColor

  datatype NamePart = NamePart(token: Token, color: Color)

  /** The text without its colours. */
  function Spelled(parts: seq<NamePart>): (ts: seq<Token>)
    ensures |ts| == |parts|
  {
    seq(|parts|, i requires 0 <= i < |parts| => parts[i].token)
  }

  lemma SpelledJoin(a: seq<NamePart>, b: seq<NamePart>)
    ensures Spelled(a + b) == Spelled(a) + Spelled(b)
  {
  }

  lemma SpelledOne(t: Token, c: Color)
    ensures Spelled([NamePart(t, c)]) == [t]
  {
  }

  method Prepend(parts: seq<NamePart>, t: Token, c: Color) returns (r: seq<NamePart>)
    ensures Spelled(r) == [t] + Spelled(parts)
  {
    SpelledOne(t, c);
    SpelledJoin([NamePart(t, c)], parts);
    r := [NamePart(t, c)] + parts;
  }

  method Append(parts: seq<NamePart>, t: Token, c: Color) returns (r: seq<NamePart>)
    ensures Spelled(r) == Spelled(parts) + [t]
  {
    SpelledOne(t, c);
    SpelledJoin(parts, [NamePart(t, c)]);
    r := parts + [NamePart(t, c)];
  }

  method Enclose(parts: seq<NamePart>) returns (r: seq<NamePart>)
    ensures Spelled(r) == [Open] + Spelled(parts) + [Close]
  {
    r := Prepend(parts, Open, NoColor);
    r := Append(r, Close, NoColor);
  }

  /** `prettyNameInColor` of a type that does not lead to a function type. */
  method TailInColor(base: string, chain: seq<Deriv>, i: nat) returns (parts: seq<NamePart>)
    requires i <= |chain|
    ensures Spelled(parts) == ColorTail(base, chain, i)
    decreases |chain| - i
  {
    if i == |chain| {
      return [NamePart(Base(base), TypeColor)];
    }
    parts := TailInColor(base, chain, i + 1);
    parts := Append(parts, if chain[i].Ptr? then Star else Suffix(chain[i]), TypeColor);
  }

  method FuncPointerInColor(base: string, chain: seq<Deriv>, i: nat, id: string, from: Option<nat>)
    returns (parts: seq<NamePart>)
    requires i < |chain| && (from.Some? ==> from.value <= i)
    ensures Spelled(parts) == ColorFuncText(base, chain, i, [Name(id)], from)
    decreases |chain| - i
  {
    hide WrapAll, Spelled, ColorTail;
    var f := NextFun(chain, i + 1);
    if f < |chain| {
      parts := FuncPointerInColor(base, chain, f, id, from);
      return;
    }
    var rt := TailInColor(base, chain, i + 1);
    parts := [NamePart(Name(id), NameColor)];
    SpelledOne(Name(id), NameColor);
    var ptr: nat, arr: nat := 0, 0;
    if from.Some? {
      var at := from.value;
      WrapNone(chain, at, [Name(id)]);
      while at != i
        invariant from.value <= at <= i
        invariant Wrapped(Spelled(parts), ptr, arr) == WrapAll(chain[from.value..at], [Name(id)])
      {
        WrapNext(chain, from.value, at, [Name(id)]);
        match chain[at] {
          case Arr(_) =>
            if ptr > 0 {
              parts := Enclose(parts);
              ptr := 0;
            }
            parts := Append(parts, Suffix(chain[at]), NumberColor);
            arr := arr + 1;
          case Ptr =>
            if arr > 0 {
              parts := Enclose(parts);
              arr := 0;
            }
            parts := Prepend(parts, Star, TypeColor);
            ptr := ptr + 1;
          case Fun(_) =>
            parts := Enclose(parts);
            parts := Append(parts, Suffix(chain[at]), ParamsColor);
            ptr, arr := 0, 0;
        }
        at := at + 1;
      }
    }
    parts := Enclose(parts);
    parts := Append(parts, Suffix(chain[i]), ParamsColor);
    SpelledJoin(rt, parts);
    parts := rt + parts;
  }

  /** Declarations as they are printed: `int (*f)(void)`, `int *p[2]`, `int (f)(void)`. */
  lemma PrintedDeclarations()
    ensures VariableText("int", [Ptr, Fun("void")], "f") ==
            [Base("int"), Open, Star, Name("f"), Close, Suffix(Fun("void"))]
    ensures VariableText("int", [Arr(Some(2)), Ptr], "p") ==
            [Base("int"), Star, Name("p"), Suffix(Arr(Some(2)))]
    ensures VariableText("int", [Fun("void")], "f") ==
            [Base("int"), Open, Name("f"), Close, Suffix(Fun("void"))]
  {
  }
}
