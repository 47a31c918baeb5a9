/**
 * How two typed memory ranges relate: whether one embeds the other, found by descending
 * through arrays, structs and unions at an offset.
 */
module Embedding {
  import M = MachineIntegers
  import opened Options

  datatype Member = Member(name: string, offset: nat, ty: Type, bits: int)

  /**
   * `Scalar` is any type that is neither an array nor a struct or union, `Lexical` a
   * typedef, const or volatile. Equality of types stands for the source's comparison of
   * kind, size, name and hash.
   */
  datatype Type =
    | Scalar(name: string, bytes: nat)
    | Lexical(inner: Type)
    | ArrayOf(elem: Type, length: nat)
    | Struct(name: string, members: seq<Member>, bytes: nat)
    | Union(name: string, members: seq<Member>, bytes: nat)

  function Size(t: Type): nat {
    match t
    case Lexical(inner) => Size(inner)
    case ArrayOf(elem, length) => length * Size(elem)
    case _ => t.bytes
  }

  /** The type without typedefs and qualifiers. */
  function Strip(t: Type): (r: Type)
    ensures r == t || r < t
    ensures !r.Lexical? && Size(r) == Size(t)
  {
    if t.Lexical? then Strip(t.inner) else t
  }

  function Min(a: nat, b: nat): nat { if a < b then a else b }

  /** One struct is a shorter version of the other: at least two leading members agree. */
  predicate SharesPrefix(a: Type, b: Type)
    requires (a.Struct? || a.Union?) && (b.Struct? || b.Union?)
  {
    var n := Min(|a.members|, |b.members|);
    && n >= 2
    && forall i :: 0 <= i < n ==>
         && a.members[i].ty == b.members[i].ty
         && a.members[i].name == b.members[i].name
         && a.members[i].bits == b.members[i].bits
  }

  // ---- Members at an offset ----

  /** Where the scan of `memberAtOffset` stops, from index `i` on. */
  function Stop(ms: seq<Member>, offset: nat, i: nat): (k: nat)
    requires i <= |ms|
    ensures i <= k <= |ms|
    decreases |ms| - i
  {
    if i == |ms| || ms[i].offset > offset then i
    else if ms[i].offset == offset && Size(ms[i].ty) > 0 then i
    else Stop(ms, offset, i + 1)
  }

  /** `memberAtOffset` without an exact match being asked for. */
  function MemberAt(s: Type, offset: nat): (r: Option<nat>)
    requires s.Struct?
    ensures r.Some? ==> r.value < |s.members|
  {
    var k := Stop(s.members, offset, 0);
    if offset >= s.bytes then None
    else if k < |s.members| && s.members[k].offset == offset && Size(s.members[k].ty) > 0 then Some(k)
    else if s.members == [] then None
    else if k == 0 then Some(0)
    else Some(k - 1)
  }

  /** Resolved types whose members lie inside them. */
  predicate WellFormed(t: Type) {
    match t
    case Scalar(_, _) => true
    case Lexical(inner) => WellFormed(inner)
    case ArrayOf(elem, _) => Size(elem) > 0 && WellFormed(elem)
    case Struct(_, ms, bytes) =>
      && (forall i :: 0 <= i < |ms| ==> WellFormed(ms[i].ty) && ms[i].offset + Size(ms[i].ty) <= bytes)
      && (ms != [] ==> ms[0].offset == 0)
    case Union(_, ms, bytes) =>
      forall i :: 0 <= i < |ms| ==> WellFormed(ms[i].ty) && Size(ms[i].ty) <= bytes
  }


  /** Members of one type at one offset, such as bit-fields that share their storage. */
  predicate Twins(a: Member, b: Member) { a.offset == b.offset && Strip(a.ty) == Strip(b.ty) }

  lemma StopIs(ms: seq<Member>, offset: nat, i: nat, k: nat)
    requires i <= k <= |ms|
    requires forall j :: i <= j < k ==> ms[j].offset <= offset && (ms[j].offset == offset ==> Size(ms[j].ty) == 0)
    requires k == |ms| || ms[k].offset > offset || (ms[k].offset == offset && Size(ms[k].ty) > 0)
    ensures Stop(ms, offset, i) == k
    decreases k - i
  {
    if i < k { StopIs(ms, offset, i + 1, k); }
  }

  lemma StopMeans(ms: seq<Member>, offset: nat, i: nat)
    requires i <= |ms|
    ensures var k := Stop(ms, offset, i);
            && (forall j :: i <= j < k ==> ms[j].offset <= offset && (ms[j].offset == offset ==> Size(ms[j].ty) == 0))
            && (k == |ms| || ms[k].offset > offset || (ms[k].offset == offset && Size(ms[k].ty) > 0))
    decreases |ms| - i
  {
    if i < Stop(ms, offset, i) { StopMeans(ms, offset, i + 1); }
  }

  /** In a laid-out struct the member found lies at or before the offset ... */
  lemma MemberAtIsBefore(s: Type, offset: nat)
    requires s.Struct? && WellFormed(s)
    ensures MemberAt(s, offset).Some? ==> s.members[MemberAt(s, offset).value].offset <= offset
  {
    StopMeans(s.members, offset, 0);
  }

  predicate Covers(m: Member, offset: nat) { m.offset <= offset < m.offset + Size(m.ty) }

  lemma MemberInside(s: Type, i: nat)
    requires s.Struct? && WellFormed(s) && i < |s.members|
    ensures s.members[i].offset + Size(s.members[i].ty) <= s.bytes
  {
  }

  /** The member found at the offset is member `k`, or its twin. */
  predicate Finds(s: Type, offset: nat, k: nat)
    requires s.Struct? && k < |s.members|
  {
    var m := MemberAt(s, offset);
    m.Some? && Twins(s.members[k], s.members[m.value])
  }

  method FindMember(s: Type, offset: nat) returns (r: Option<nat>)
    requires s.Struct?
    ensures r == MemberAt(s, offset)
  {
    if offset >= s.bytes {
      return None;
    }
    var i := 0;
    while i < |s.members|
      invariant 0 <= i <= |s.members|
      invariant Stop(s.members, offset, 0) == Stop(s.members, offset, i)
    {
      if s.members[i].offset > offset {
        break;
      }
      if s.members[i].offset == offset && Size(s.members[i].ty) > 0 {
        return Some(i);
      }
      i := i + 1;
    }
    if s.members == [] {
      return None;
    } else if i == 0 {
      return Some(0);
    } else {
      return Some(i - 1);
    }
  }

  // ---- The descent ----

  predicate Matches(first: Type, second: Type, offset: nat) {
    && offset == 0
    && (first == second
        || (first.Struct? && (second.Struct? || second.Union?) && SharesPrefix(first, second)))
  }

  /** `embedsHelper`: true stands for "first embeds second", false for "overlap". */
  function Helper(first: Type, second: Type, offset: nat): bool
    requires WellFormed(first)
    decreases first
  {
    if Matches(first, second, offset) then true
    else
      match first
      case ArrayOf(elem, _) =>
        WellFormedStrip(elem);
        Helper(Strip(elem), second, offset % Size(elem))
      case Struct(_, ms, _) =>
        var m := MemberAt(first, offset);
        MemberAtIsBefore(first, offset);
        if m.None? then false
        else
          WellFormedStrip(ms[m.value].ty);
          Helper(Strip(ms[m.value].ty), second, offset - ms[m.value].offset)
      case Union(_, ms, _) => HelperAny(first, second, offset, 0)
      case _ => false
  }

  /** All members of a union from index `i` on are tried. */
  function HelperAny(first: Type, second: Type, offset: nat, i: nat): bool
    requires first.Union? && WellFormed(first) && i <= |first.members|
    decreases first, |first.members| - i
  {
    if i == |first.members| then false
    else
      var ty := first.members[i].ty;
      WellFormedStrip(ty);
      (offset < Size(ty) && Helper(Strip(ty), second, offset)) || HelperAny(first, second, offset, i + 1)
  }

  lemma WellFormedStrip(t: Type)
    requires WellFormed(t)
    ensures WellFormed(Strip(t))
  {
  }

  // ---- What it means: a path ----

  predicate CanEnter(first: Type, offset: nat, k: nat) {
    match first
    case ArrayOf(elem, length) => k < length && k * Size(elem) <= offset < (k + 1) * Size(elem)
    case Struct(_, ms, _) => k < |ms| && Covers(ms[k], offset)
    case Union(_, ms, _) => k < |ms| && offset < Size(ms[k].ty)
    case _ => false
  }

  function NextOffset(s: Type, i: nat): nat
    requires s.Struct? && i < |s.members|
  {
    if i + 1 < |s.members| then s.members[i + 1].offset else s.bytes
  }


  /** A step beyond the end of an array, or into the padding after the last member that starts by then. */
  predicate CanStray(first: Type, offset: nat, k: nat) {
    match first
    case ArrayOf(elem, length) => k >= length && k * Size(elem) <= offset < (k + 1) * Size(elem)
    case Struct(_, ms, _) =>
      && k < |ms|
      && ms[k].offset + Size(ms[k].ty) <= offset < NextOffset(first, k)
      && forall i :: 0 <= i <= k ==> ms[i].offset < offset || (ms[i].offset == offset && Size(ms[i].ty) == 0)
    case _ => false
  }

  predicate CanStep(first: Type, offset: nat, k: nat) { CanEnter(first, offset, k) || CanStray(first, offset, k) }

  /** The element or member entered, and what remains of the offset in it. */
  function Entered(first: Type, offset: nat, k: nat): (Type, nat)
    requires CanStep(first, offset, k)
  {
    match first
    case ArrayOf(elem, _) => (Strip(elem), offset - k * Size(elem))
    case Struct(_, ms, _) => (Strip(ms[k].ty), offset - ms[k].offset)
    case Union(_, ms, _) => (Strip(ms[k].ty), offset)
  }

  /**
   * `path` leads from `first` at `offset` to a match at offset 0: an array index for an
   * array, a member index for a struct or union, each step staying inside the element
   * or member it enters.
   */
  predicate PathTo(first: Type, second: Type, offset: nat, path: seq<nat>)
    decreases |path|
  {
    if path == [] then Matches(first, second, offset)
    else
      && CanEnter(first, offset, path[0])
      && var (t, o) := Entered(first, offset, path[0]);
         PathTo(t, second, o, path[1..])
  }

  ghost predicate HasPath(first: Type, second: Type, offset: nat) {
    exists path :: PathTo(first, second, offset, path)
  }

  /** The same with steps that may go beyond what they enter. */
  predicate LedTo(first: Type, second: Type, offset: nat, path: seq<nat>)
    decreases |path|
  {
    if path == [] then Matches(first, second, offset)
    else
      && CanStep(first, offset, path[0])
      && var (t, o) := Entered(first, offset, path[0]);
         LedTo(t, second, o, path[1..])
  }

  /** A path of which at least one step goes beyond an array or into padding. */
  predicate Astray(first: Type, second: Type, offset: nat, path: seq<nat>)
    decreases |path|
  {
    && path != []
    && CanStep(first, offset, path[0])
    && var (t, o) := Entered(first, offset, path[0]);
       if CanStray(first, offset, path[0]) then LedTo(t, second, o, path[1..]) else Astray(t, second, o, path[1..])
  }

  lemma {:induction false} LedProperlyOrAstray(first: Type, second: Type, offset: nat, path: seq<nat>)
    ensures LedTo(first, second, offset, path) <==>
              PathTo(first, second, offset, path) || Astray(first, second, offset, path)
    decreases |path|
  {
    hide Matches;
    if path != [] && CanStep(first, offset, path[0]) {
      var (t, o) := Entered(first, offset, path[0]);
      EnterOrStray(first, offset, path[0]);
      LedProperlyOrAstray(t, second, o, path[1..]);
    }
  }

  lemma EnterOrStray(first: Type, offset: nat, k: nat)
    ensures !(CanEnter(first, offset, k) && CanStray(first, offset, k))
  {
  }

  lemma ProductMonotone(a: nat, b: nat, m: nat)
    requires a <= b
    ensures a * m <= b * m
  {
    assert b * m == a * m + (b - a) * m;
  }

  /** Which element an offset falls into. */
  lemma ElementAt(offset: nat, k: nat, size: nat)
    requires size > 0 && k * size <= offset < (k + 1) * size
    ensures offset / size == k && offset % size == offset - k * size
  {
    var q, r := offset / size, offset % size;
    assert offset == q * size + r;
    if q < k {
      ProductMonotone(q + 1, k, size);
    } else if q > k {
      ProductMonotone(k + 1, q, size);
    }
  }

  /** The step enters what the descent enters: in a structure, the member found. */
  predicate IsSeen(first: Type, offset: nat, k: nat) {
    first.Struct? ==> k < |first.members| && Finds(first, offset, k)
  }

  /** A path of which every step is seen. */
  predicate InView(first: Type, offset: nat, path: seq<nat>)
    decreases |path|
  {
    path != [] ==>
      && CanStep(first, offset, path[0])
      && IsSeen(first, offset, path[0])
      && var (t, o) := Entered(first, offset, path[0]);
         InView(t, o, path[1..])
  }

  lemma HelperAnyHolds(first: Type, second: Type, offset: nat, i: nat, k: nat)
    requires first.Union? && WellFormed(first) && i <= k < |first.members|
    requires offset < Size(first.members[k].ty) && WellFormed(Strip(first.members[k].ty))
    requires Helper(Strip(first.members[k].ty), second, offset)
    ensures HelperAny(first, second, offset, i)
    decreases k - i
  {
    if i < k { HelperAnyHolds(first, second, offset, i + 1, k); }
  }

  lemma HelperAnyWitness(first: Type, second: Type, offset: nat, i: nat) returns (k: nat)
    requires first.Union? && WellFormed(first) && i <= |first.members|
    requires HelperAny(first, second, offset, i)
    ensures k < |first.members| && offset < Size(first.members[k].ty)
    ensures WellFormed(Strip(first.members[k].ty)) && Helper(Strip(first.members[k].ty), second, offset)
    decreases |first.members| - i
  {
    WellFormedStrip(first.members[i].ty);
    if offset < Size(first.members[i].ty) && Helper(Strip(first.members[i].ty), second, offset) {
      k := i;
    } else {
      k := HelperAnyWitness(first, second, offset, i + 1);
    }
  }

  lemma EnteredIsWellFormed(first: Type, offset: nat, k: nat)
    requires WellFormed(first) && CanStep(first, offset, k)
    ensures var (t, o) := Entered(first, offset, k);
            && t < first && WellFormed(t) && !t.Lexical?
            && (CanEnter(first, offset, k) ==> o < Size(t))
  {
    match first {
      case ArrayOf(elem, _) =>
        WellFormedStrip(elem);
        assert (k + 1) * Size(elem) == k * Size(elem) + Size(elem);
      case Struct(_, ms, _) => WellFormedStrip(ms[k].ty);
      case Union(_, ms, _) => WellFormedStrip(ms[k].ty);
    }
  }

  /** A step that is seen is taken by the descent, unless it has matched before. */
  lemma StepIsTaken(first: Type, second: Type, offset: nat, k: nat)
    requires WellFormed(first) && CanStep(first, offset, k) && IsSeen(first, offset, k)
    requires WellFormed(Entered(first, offset, k).0)
    requires Helper(Entered(first, offset, k).0, second, Entered(first, offset, k).1)
    ensures Helper(first, second, offset)
  {
    hide Matches, MemberAt;
    match first {
      case ArrayOf(elem, _) => ElementAt(offset, k, Size(elem));
      case Struct(_, ms, _) =>
      case Union(_, ms, _) => HelperAnyHolds(first, second, offset, 0, k);
    }
  }

  /** Nothing in view is missed, whether the path stays inside or goes astray. */
  lemma {:induction false} LedIsFound(first: Type, second: Type, offset: nat, path: seq<nat>)
    requires WellFormed(first) && LedTo(first, second, offset, path) && InView(first, offset, path)
    ensures Helper(first, second, offset)
    decreases |path|
  {
    if path != [] {
      hide Helper, Entered, CanStep, WellFormed, IsSeen;
      var (t, o) := Entered(first, offset, path[0]);
      EnteredIsWellFormed(first, offset, path[0]);
      LedIsFound(t, second, o, path[1..]);
      StepIsTaken(first, second, offset, path[0]);
    }
  }

  /** In padding, the member before it is found. */
  lemma MemberAtPadding(s: Type, offset: nat, k: nat)
    requires s.Struct? && WellFormed(s) && CanStray(s, offset, k)
    ensures MemberAt(s, offset) == Some(k)
  {
    hide WellFormed;
    MemberInside(s, if k + 1 < |s.members| then k + 1 else k);
    StopIs(s.members, offset, 0, k + 1);
  }

  /** The member found covers the offset, or padding follows it. */
  lemma MemberAtSteps(s: Type, offset: nat)
    requires s.Struct? && WellFormed(s) && MemberAt(s, offset).Some?
    ensures CanStep(s, offset, MemberAt(s, offset).value)
  {
    StopMeans(s.members, offset, 0);
  }

  /** Where the descent goes, if it goes on. */
  lemma DescentSteps(first: Type, second: Type, offset: nat) returns (k: nat)
    requires WellFormed(first) && !first.Lexical?
    requires Helper(first, second, offset) && !Matches(first, second, offset)
    ensures CanStep(first, offset, k) && IsSeen(first, offset, k)
    ensures var (t, o) := Entered(first, offset, k);
            t < first && WellFormed(t) && !t.Lexical? && Helper(t, second, o)
  {
    hide Matches;
    match first {
      case ArrayOf(elem, _) =>
        WellFormedStrip(elem);
        k := Quotient(offset, Size(elem));
      case Struct(_, ms, _) =>
        k := MemberAt(first, offset).value;
        MemberAtSteps(first, offset);
        WellFormedStrip(ms[k].ty);
      case Union(_, ms, _) =>
        k := HelperAnyWitness(first, second, offset, 0);
    }
  }

  lemma Quotient(offset: nat, size: nat) returns (k: nat)
    requires size > 0
    ensures k * size <= offset < (k + 1) * size && offset % size == offset - k * size
  {
    k := offset / size;
    assert offset == k * size + offset % size;
    assert (k + 1) * size == k * size + size;
  }

  lemma LedVia(first: Type, second: Type, offset: nat, k: nat, more: seq<nat>)
    requires CanStep(first, offset, k)
    requires LedTo(Entered(first, offset, k).0, second, Entered(first, offset, k).1, more)
    ensures LedTo(first, second, offset, [k] + more)
    ensures IsSeen(first, offset, k) && InView(Entered(first, offset, k).0, Entered(first, offset, k).1, more) ==>
              InView(first, offset, [k] + more)
  {
    assert ([k] + more)[1..] == more;
  }

  /** Whatever is found, some path in view leads there, inside or astray. */
  lemma FoundIsLed(first: Type, second: Type, offset: nat) returns (path: seq<nat>)
    requires WellFormed(first) && !first.Lexical? && Helper(first, second, offset)
    ensures LedTo(first, second, offset, path) && InView(first, offset, path)
    decreases first
  {
    if Matches(first, second, offset) {
      return [];
    }
    hide Helper, LedTo, InView, WellFormed, CanStep, IsSeen;
    var k := DescentSteps(first, second, offset);
    var more := FoundIsLed(Entered(first, offset, k).0, second, Entered(first, offset, k).1);
    LedVia(first, second, offset, k, more);
    path := [k] + more;
  }

  /** Some path in view leads there and stays inside. */
  ghost predicate HasPathInView(first: Type, second: Type, offset: nat) {
    exists path :: PathTo(first, second, offset, path) && InView(first, offset, path)
  }

  /** Some path in view goes astray and meets the type. */
  ghost predicate GoesAstray(first: Type, second: Type, offset: nat) {
    exists path :: Astray(first, second, offset, path) && InView(first, offset, path)
  }

  /** For every type, the answer is "yes" exactly if a path in view leads there or goes astray. */
  lemma HelperIsPathOrAstray(first: Type, second: Type, offset: nat)
    requires WellFormed(first) && !first.Lexical?
    ensures Helper(first, second, offset) <==>
              HasPathInView(first, second, offset) || GoesAstray(first, second, offset)
  {
    hide Helper, PathTo, Astray, LedTo, InView, WellFormed;
    if Helper(first, second, offset) {
      var path := FoundIsLed(first, second, offset);
      LedProperlyOrAstray(first, second, offset, path);
    }
    if exists path :: (PathTo(first, second, offset, path) || Astray(first, second, offset, path))
                      && InView(first, offset, path) {
      var path :| (PathTo(first, second, offset, path) || Astray(first, second, offset, path))
                  && InView(first, offset, path);
      LedProperlyOrAstray(first, second, offset, path);
      LedIsFound(first, second, offset, path);
    }
  }

  // ---- Types in which every path is in view ----

  /** Types that the descent may claim to embed something even beyond their own end. */
  predicate Loose(t: Type) {
    t.ArrayOf? || (t.Struct? && t.bytes == 0 && |t.members| >= 2)
  }

  /** The descent may come to the start of something from this offset of the type. */
  predicate Begins(t: Type, offset: nat)
    decreases t
  {
    || (offset == 0 && (Size(t) > 0 || Loose(t)))
    || match t
       case ArrayOf(elem, _) => Size(elem) > 0 && Begins(Strip(elem), offset % Size(elem))
       case Struct(_, ms, _) =>
         exists k :: 0 <= k < |ms| && CanStep(t, offset, k) && Begins(Strip(ms[k].ty), offset - ms[k].offset)
       case Union(_, ms, _) => exists k :: 0 <= k < |ms| && CanStep(t, offset, k) && Begins(Strip(ms[k].ty), offset)
       case _ => false
  }

  /** Something begins in member `j` at this offset, and the scan answers with another member. */
  predicate Hidden(s: Type, j: nat, offset: nat)
    requires s.Struct? && j < |s.members|
  {
    && Covers(s.members[j], offset)
    && Begins(Strip(s.members[j].ty), offset - s.members[j].offset)
    && !Finds(s, offset, j)
  }

  /** No member hides what begins in another one, at any depth. */
  predicate Clear(t: Type) {
    match t
    case Scalar(_, _) => true
    case Lexical(inner) => Clear(inner)
    case ArrayOf(elem, length) => length > 0 ==> Clear(elem)
    case Struct(_, ms, bytes) =>
      && (forall i :: 0 <= i < |ms| ==> (Size(ms[i].ty) > 0 ==> Clear(ms[i].ty)))
      && (forall j, offset :: 0 <= j < |ms| && 0 <= offset < bytes ==> !Hidden(t, j, offset))
    case Union(_, ms, _) => forall i :: 0 <= i < |ms| ==> (Size(ms[i].ty) > 0 ==> Clear(ms[i].ty))
  }

  lemma ClearStrip(t: Type)
    requires Clear(t)
    ensures Clear(Strip(t))
  {
  }

  lemma ClearShows(s: Type, j: nat, offset: nat)
    requires s.Struct? && WellFormed(s) && Clear(s) && j < |s.members| && Covers(s.members[j], offset)
    requires Begins(Strip(s.members[j].ty), offset - s.members[j].offset)
    ensures Finds(s, offset, j)
  {
    hide Clear, WellFormed, Begins, Finds;
    MemberInside(s, j);
    NotHidden(s, j, offset);
  }

  lemma NotHidden(s: Type, j: nat, offset: nat)
    requires s.Struct? && Clear(s) && j < |s.members| && offset < s.bytes
    ensures !Hidden(s, j, offset)
  {
    hide Hidden;
  }

  lemma BeginsVia(first: Type, offset: nat, k: nat)
    requires WellFormed(first) && CanStep(first, offset, k)
    requires Begins(Entered(first, offset, k).0, Entered(first, offset, k).1)
    ensures Begins(first, offset)
  {
    if first.ArrayOf? {
      ElementAt(offset, k, Size(first.elem));
    }
  }

  /** Wherever a path leads, something begins. */
  lemma {:induction false} LedBegins(first: Type, second: Type, offset: nat, path: seq<nat>)
    requires WellFormed(first) && LedTo(first, second, offset, path)
    requires Size(second) > 0 || (offset < Size(first) && PathTo(first, second, offset, path))
    ensures Begins(first, offset)
    decreases |path|
  {
    if path != [] {
      hide Begins, Entered, CanStep, WellFormed;
      var (t, o) := Entered(first, offset, path[0]);
      EnteredIsWellFormed(first, offset, path[0]);
      LedBegins(t, second, o, path[1..]);
      BeginsVia(first, offset, path[0]);
    }
  }

  lemma PathIsLed(first: Type, second: Type, offset: nat, path: seq<nat>)
    requires PathTo(first, second, offset, path)
    ensures LedTo(first, second, offset, path)
  {
    hide PathTo, LedTo, Astray;
    LedProperlyOrAstray(first, second, offset, path);
  }

  /** In a clear type, a step inside to where something begins is seen. */
  lemma ClearStep(first: Type, offset: nat, k: nat)
    requires WellFormed(first) && Clear(first) && CanEnter(first, offset, k)
    ensures Clear(Entered(first, offset, k).0)
    ensures Begins(Entered(first, offset, k).0, Entered(first, offset, k).1) ==> IsSeen(first, offset, k)
  {
    hide Begins;
    match first {
      case ArrayOf(elem, _) => ClearStrip(elem);
      case Struct(_, ms, _) =>
        ClearStrip(ms[k].ty);
        if Begins(Strip(ms[k].ty), offset - ms[k].offset) { ClearShows(first, k, offset); }
      case Union(_, ms, _) => ClearStrip(ms[k].ty);
    }
  }

  lemma {:induction false} ClearInView(first: Type, second: Type, offset: nat, path: seq<nat>)
    requires WellFormed(first) && Clear(first) && PathTo(first, second, offset, path)
    ensures InView(first, offset, path)
    decreases |path|
  {
    if path != [] {
      hide Begins, Entered, CanEnter, WellFormed, Clear, IsSeen;
      var (t, o) := Entered(first, offset, path[0]);
      EnteredIsWellFormed(first, offset, path[0]);
      PathIsLed(t, second, o, path[1..]);
      LedBegins(t, second, o, path[1..]);
      ClearStep(first, offset, path[0]);
      ClearInView(t, second, o, path[1..]);
    }
  }

  /** In a clear type no path is missed. */
  lemma PathIsFound(first: Type, second: Type, offset: nat, path: seq<nat>)
    requires WellFormed(first) && Clear(first) && PathTo(first, second, offset, path)
    ensures Helper(first, second, offset)
  {
    hide Helper, PathTo, LedTo, InView, WellFormed, Clear;
    PathIsLed(first, second, offset, path);
    ClearInView(first, second, offset, path);
    LedIsFound(first, second, offset, path);
  }

  // ---- Members in order ----

  /** A member starts at or after the end of those before it, or at or after the start of a scalar. */
  predicate Follows(a: Member, b: Member) {
    a.offset + Size(a.ty) <= b.offset || (Strip(a.ty).Scalar? && a.offset <= b.offset)
  }

  /** Both hold something at one offset, and differ in type. */
  predicate Clash(a: Member, b: Member) {
    a.offset == b.offset && Size(a.ty) > 0 && Size(b.ty) > 0 && Strip(a.ty) != Strip(b.ty)
  }

  predicate AllFollow(ms: seq<Member>) { forall i, j :: 0 <= i < j < |ms| ==> Follows(ms[i], ms[j]) }

  predicate NoneClash(ms: seq<Member>) { forall i, j :: 0 <= i < j < |ms| ==> !Clash(ms[i], ms[j]) }

  /** The members of every structure inside follow one another. */
  predicate InOrder(t: Type) {
    match t
    case Scalar(_, _) => true
    case Lexical(inner) => InOrder(inner)
    case ArrayOf(elem, _) => InOrder(elem)
    case Struct(_, ms, _) => AllFollow(ms) && forall i :: 0 <= i < |ms| ==> InOrder(ms[i].ty)
    case Union(_, ms, _) => forall i :: 0 <= i < |ms| ==> InOrder(ms[i].ty)
  }

  /** No two members of a structure that differ in type share an offset, wherever something is stored. */
  predicate Apart(t: Type) {
    match t
    case Scalar(_, _) => true
    case Lexical(inner) => Apart(inner)
    case ArrayOf(elem, length) => length > 0 ==> Apart(elem)
    case Struct(_, ms, _) =>
      NoneClash(ms) && forall i :: 0 <= i < |ms| ==> (Size(ms[i].ty) > 0 ==> Apart(ms[i].ty))
    case Union(_, ms, _) => forall i :: 0 <= i < |ms| ==> (Size(ms[i].ty) > 0 ==> Apart(ms[i].ty))
  }

  lemma OffsetsAscend(ms: seq<Member>, i: nat, j: nat)
    requires AllFollow(ms) && i <= j < |ms|
    ensures ms[i].offset <= ms[j].offset
    ensures i < j ==> Follows(ms[i], ms[j])
  {
  }

  /** The member covers the offset and something may begin in it there. */
  predicate Reaches(m: Member, offset: nat) {
    Covers(m, offset) && (Strip(m.ty).Scalar? ==> offset == m.offset)
  }

  /** If the members are in order and apart, and one of them reaches the offset, it is found, or its twin is. */
  lemma MemberAtCovers(s: Type, offset: nat, i: nat)
    requires s.Struct? && WellFormed(s) && AllFollow(s.members) && NoneClash(s.members)
    requires i < |s.members| && Reaches(s.members[i], offset)
    ensures Finds(s, offset, i)
  {
    hide WellFormed, AllFollow;
    var ms, k := s.members, Stop(s.members, offset, 0);
    StopMeans(ms, offset, 0);
    MemberInside(s, i);
    if k < |ms| && ms[k].offset == offset && Size(ms[k].ty) > 0 {
      if k < i {
        OffsetsAscend(ms, k, i);
        assert !Clash(ms[k], ms[i]);
      } else if i < k {
        OffsetsAscend(ms, i, k);
      }
    } else if k <= i {
      OffsetsAscend(ms, k, i);
    } else if i < k - 1 {
      OffsetsAscend(ms, i, k - 1);
    }
  }

  lemma NoneHidden(s: Type, j: nat, offset: nat)
    requires s.Struct? && WellFormed(s) && AllFollow(s.members) && NoneClash(s.members) && j < |s.members|
    ensures !Hidden(s, j, offset)
  {
    hide WellFormed, AllFollow, NoneClash, Finds;
    if Reaches(s.members[j], offset) {
      MemberAtCovers(s, offset, j);
    }
  }

  /** Of two members that clash, one is hidden: only the first that holds something at the offset is found. */
  lemma ClashHides(s: Type, i: nat, j: nat)
    requires s.Struct? && WellFormed(s) && AllFollow(s.members) && i < j < |s.members|
    requires Clash(s.members[i], s.members[j])
    ensures s.members[i].offset < s.bytes
    ensures Hidden(s, i, s.members[i].offset) || Hidden(s, j, s.members[i].offset)
  {
    hide WellFormed;
    MemberInside(s, i);
  }

  lemma SomeHidden(s: Type)
    requires s.Struct? && WellFormed(s) && AllFollow(s.members) && !NoneClash(s.members)
    ensures !Clear(s)
  {
    hide WellFormed, Hidden, Clash, AllFollow;
    var i, j :| 0 <= i < j < |s.members| && Clash(s.members[i], s.members[j]);
    ClashHides(s, i, j);
  }

  /** A type with its members in order is clear exactly if they are apart. */
  lemma {:induction false} ClearIffApart(t: Type)
    requires WellFormed(t) && InOrder(t)
    ensures Clear(t) <==> Apart(t)
  {
    hide Hidden, AllFollow, NoneClash;
    match t {
      case Scalar(_, _) =>
      case Lexical(inner) => ClearIffApart(inner);
      case ArrayOf(elem, length) => ClearIffApart(elem);
      case Struct(_, ms, bytes) =>
        forall i | 0 <= i < |ms| ensures Clear(ms[i].ty) <==> Apart(ms[i].ty) { ClearIffApart(ms[i].ty); }
        if NoneClash(ms) {
          forall j: nat, offset: nat | j < |ms| ensures !Hidden(t, j, offset) { NoneHidden(t, j, offset); }
        } else {
          SomeHidden(t);
        }
      case Union(_, ms, _) =>
        forall i | 0 <= i < |ms| ensures Clear(ms[i].ty) <==> Apart(ms[i].ty) { ClearIffApart(ms[i].ty); }
    }
  }

  // ---- Types in which no path goes astray ----

  predicate Padded(s: Type, i: nat)
    requires s.Struct? && i < |s.members|
  {
    Loose(Strip(s.members[i].ty)) && NextOffset(s, i) > s.members[i].offset + Size(s.members[i].ty)
  }

  /** No array, be it of length zero, and no structure of size zero is followed by padding, at any depth. */
  predicate Tight(t: Type) {
    match t
    case Scalar(_, _) => true
    case Lexical(inner) => Tight(inner)
    case ArrayOf(elem, length) => length > 0 ==> Tight(elem)
    case Struct(_, ms, _) =>
      forall i :: 0 <= i < |ms| ==> !Padded(t, i) && (Size(ms[i].ty) > 0 ==> Tight(ms[i].ty))
    case Union(_, ms, _) => forall i :: 0 <= i < |ms| ==> (Size(ms[i].ty) > 0 ==> Tight(ms[i].ty))
  }

  lemma TightStrip(t: Type)
    requires Tight(t)
    ensures Tight(Strip(t))
  {
  }

  lemma NothingBeyondTheEnd(first: Type, second: Type, offset: nat, path: seq<nat>)
    requires WellFormed(first) && !Loose(first) && !first.Lexical?
    requires offset >= Size(first) && Size(second) > 0
    ensures !LedTo(first, second, offset, path)
  {
    if path != [] {
      NoStepBeyondTheEnd(first, offset, path[0]);
    }
  }

  lemma NoStepBeyondTheEnd(first: Type, offset: nat, k: nat)
    requires WellFormed(first) && !first.ArrayOf? && offset >= Size(first)
    ensures !CanStep(first, offset, k)
  {
    if first.Struct? && k < |first.members| {
      MemberInside(first, if k + 1 < |first.members| then k + 1 else k);
    }
  }

  /** A step of a tight type stays inside unless it leads to nothing. */
  lemma TightStep(first: Type, second: Type, offset: nat, k: nat, more: seq<nat>)
    requires WellFormed(first) && Tight(first) && !first.Lexical?
    requires offset < Size(first) && Size(second) > 0 && CanStep(first, offset, k)
    ensures var (t, o) := Entered(first, offset, k);
            if CanStray(first, offset, k) then !LedTo(t, second, o, more)
            else o < Size(t) && WellFormed(t) && Tight(t) && !t.Lexical?
  {
    hide LedTo, Loose;
    match first {
      case ArrayOf(elem, length) =>
        WellFormedStrip(elem);
        if k >= length { ProductMonotone(length, k, Size(elem)); } else { TightStrip(elem); }
        assert (k + 1) * Size(elem) == k * Size(elem) + Size(elem);
      case Struct(_, ms, _) =>
        WellFormedStrip(ms[k].ty);
        if CanStray(first, offset, k) {
          assert !Padded(first, k);
          NothingBeyondTheEnd(Strip(ms[k].ty), second, offset - ms[k].offset, more);
        } else {
          TightStrip(ms[k].ty);
        }
      case Union(_, ms, _) =>
        WellFormedStrip(ms[k].ty);
        TightStrip(ms[k].ty);
    }
  }

  lemma {:induction false} TightStaysInside(first: Type, second: Type, offset: nat, path: seq<nat>)
    requires WellFormed(first) && Tight(first) && !first.Lexical?
    requires offset < Size(first) && Size(second) > 0
    ensures !Astray(first, second, offset, path)
    decreases |path|
  {
    hide Tight, WellFormed, CanStep, LedTo, Entered, CanStray;
    if path != [] && CanStep(first, offset, path[0]) {
      TightStep(first, second, offset, path[0], path[1..]);
      if !CanStray(first, offset, path[0]) {
        var (t, o) := Entered(first, offset, path[0]);
        TightStaysInside(t, second, o, path[1..]);
      }
    }
  }

  /** In a tight type nothing is found that is not there, even if its members overlap. */
  lemma FoundIsPath(first: Type, second: Type, offset: nat) returns (path: seq<nat>)
    requires WellFormed(first) && Tight(first) && !first.Lexical?
    requires offset < Size(first) && Size(second) > 0 && Helper(first, second, offset)
    ensures PathTo(first, second, offset, path)
  {
    hide Helper, PathTo, Astray, LedTo, WellFormed, Tight, InView;
    path := FoundIsLed(first, second, offset);
    LedProperlyOrAstray(first, second, offset, path);
    TightStaysInside(first, second, offset, path);
  }

  /** In a tight and clear type the answer is exactly the existence of a path. */
  lemma HelperIsPath(first: Type, second: Type, offset: nat)
    requires WellFormed(first) && Clear(first) && Tight(first) && !first.Lexical?
    requires offset < Size(first) && Size(second) > 0
    ensures Helper(first, second, offset) <==> HasPath(first, second, offset)
  {
    hide Helper, PathTo, WellFormed, Tight, Clear;
    if Helper(first, second, offset) {
      var path := FoundIsPath(first, second, offset);
    }
    if exists path :: PathTo(first, second, offset, path) {
      var path :| PathTo(first, second, offset, path);
      PathIsFound(first, second, offset, path);
    }
  }

  /** The loop of `embedsHelper`, which descends in place and recurs only for unions. */
  method EmbedsHelper(outer: Type, second: Type, start: nat) returns (embeds: bool)
    requires WellFormed(outer)
    ensures embeds == Helper(outer, second, start)
    decreases outer
  {
    hide Matches, MemberAt, WellFormed;
    var first := outer;
    var offset: nat := start;
    while true
      invariant WellFormed(first) && (first == outer || first < outer)
      invariant Helper(first, second, offset) == Helper(outer, second, start)
      decreases first
    {
      if Matches(first, second, offset) {
        return true;
      }
      match first {
        case ArrayOf(elem, _) =>
          ElementsAreWellFormed(first);
          offset := offset % Size(elem);
          first := Strip(elem);
        case Struct(_, ms, _) =>
          var m := FindMember(first, offset);
          if m.None? {
            return false;
          }
          MembersAreWellFormed(first, m.value);
          MemberAtIsBefore(first, offset);
          offset := offset - ms[m.value].offset;
          first := Strip(ms[m.value].ty);
        case Union(_, ms, _) =>
          var i := 0;
          while i < |ms|
            invariant 0 <= i <= |ms|
            invariant HelperAny(first, second, offset, i) == Helper(outer, second, start)
          {
            MembersAreWellFormed(first, i);
            if offset < Size(ms[i].ty) {
              var ret := EmbedsHelper(Strip(ms[i].ty), second, offset);
              if ret {
                return true;
              }
            }
            i := i + 1;
          }
          return false;
        case _ =>
          return false;
      }
    }
    embeds := false;
  }

  lemma ElementsAreWellFormed(t: Type)
    requires t.ArrayOf? && WellFormed(t)
    ensures Size(t.elem) > 0 && WellFormed(Strip(t.elem))
  {
    WellFormedStrip(t.elem);
  }

  lemma MembersAreWellFormed(t: Type, i: nat)
    requires (t.Struct? || t.Union?) && WellFormed(t) && i < |t.members|
    ensures WellFormed(Strip(t.members[i].ty))
  {
    WellFormedStrip(t.members[i].ty);
  }

  // ---- Two objects at addresses ----

  datatype Relation = NoOverlap | Overlap | Cover | Equal | FirstEmbedsSecond | SecondEmbedsFirst

  /** An address computation of the host, which wraps. */
  function LastByte(address: nat, size: nat): nat
    requires size > 0
  {
    (address + size - 1) % M.TWO_64
  }

  /** The call with swapped arguments is made in this case, and is not made again by that call. */
  predicate Swaps(a: nat, aEnd: nat, b: nat, bEnd: nat) {
    (b < a && bEnd >= a && bEnd >= aEnd) || (a == b && bEnd > aEnd)
  }

  /** `embeds`; a null type is `None`. */
  function Embeds(first: Option<Type>, a: nat, second: Option<Type>, b: nat): Relation
    requires first.Some? ==> WellFormed(first.value)
    requires second.Some? ==> WellFormed(second.value)
    decreases
      if first.Some? && second.Some? && Size(first.value) > 0 && Size(second.value) > 0
         && Swaps(a, LastByte(a, Size(first.value)), b, LastByte(b, Size(second.value))) then 1 else 0
  {
    if first.None? || second.None? || Size(first.value) == 0 || Size(second.value) == 0 then NoOverlap
    else
      var aEnd, bEnd := LastByte(a, Size(first.value)), LastByte(b, Size(second.value));
      if b < a && bEnd < a then NoOverlap
      else if b < a && bEnd < aEnd then Overlap
      else if a == b && bEnd == aEnd then (if first == second then Equal else Cover)
      else if a < b && bEnd > aEnd then (if b <= aEnd then Overlap else NoOverlap)
      else if Swaps(a, aEnd, b, bEnd) then
        (match Embeds(second, b, first, a)
         case FirstEmbedsSecond => SecondEmbedsFirst
         case other => other)
      else
        WellFormedStrip(first.value);
        if Helper(Strip(first.value), Strip(second.value), b - a) then FirstEmbedsSecond else Overlap
  }

  function Mirrored(r: Relation): Relation {
    match r
    case FirstEmbedsSecond => SecondEmbedsFirst
    case SecondEmbedsFirst => FirstEmbedsSecond
    case other => other
  }

  /** The last byte of the object lies in the address space. */
  predicate Fits(t: Type, address: nat) { address + Size(t) <= M.TWO_64 }

  predicate Inhabited(t: Type) { WellFormed(t) && Size(t) > 0 }

  /** `Instance::overlaps` for two valid instances with the given first and last addresses. */
  predicate InstancesOverlap(a: nat, aEnd: nat, b: nat, bEnd: nat) {
    if b < a then a <= bEnd else b <= aEnd
  }

  /** Swapping the arguments mirrors the answer. */
  lemma EmbedsMirrors(first: Type, a: nat, second: Type, b: nat)
    requires Inhabited(first) && Inhabited(second) && Fits(first, a) && Fits(second, b)
    ensures Embeds(Some(second), b, Some(first), a) == Mirrored(Embeds(Some(first), a, Some(second), b))
  {
    hide Helper, WellFormed;
  }

  predicate Occupies(address: nat, size: nat, x: nat) { address <= x < address + size }

  lemma NoOverlapMeans(first: Type, a: nat, second: Type, b: nat)
    requires Inhabited(first) && Inhabited(second) && Fits(first, a) && Fits(second, b)
    ensures Embeds(Some(first), a, Some(second), b) == NoOverlap <==>
            !InstancesOverlap(a, LastByte(a, Size(first)), b, LastByte(b, Size(second)))
  {
    hide Helper, WellFormed, Size, Strip;
  }

  lemma RangesMeet(a: nat, m: nat, b: nat, n: nat)
    requires m > 0 && n > 0 && a + m <= M.TWO_64 && b + n <= M.TWO_64
    ensures InstancesOverlap(a, LastByte(a, m), b, LastByte(b, n)) <==>
            exists x: nat :: Occupies(a, m, x) && Occupies(b, n, x)
  {
    if InstancesOverlap(a, LastByte(a, m), b, LastByte(b, n)) {
      var x := if a < b then b else a;
      assert Occupies(a, m, x) && Occupies(b, n, x);
    }
  }

  /** "No overlap" says exactly that the two address ranges are disjoint, as `overlaps` does. */
  lemma NoOverlapIsDisjoint(first: Type, a: nat, second: Type, b: nat)
    requires Inhabited(first) && Inhabited(second) && Fits(first, a) && Fits(second, b)
    ensures Embeds(Some(first), a, Some(second), b) == NoOverlap <==>
            !exists x: nat :: Occupies(a, Size(first), x) && Occupies(b, Size(second), x)
    ensures Embeds(Some(first), a, Some(second), b) == NoOverlap <==>
            !InstancesOverlap(a, LastByte(a, Size(first)), b, LastByte(b, Size(second)))
  {
    hide Embeds, InstancesOverlap, Occupies, LastByte, Size, WellFormed;
    NoOverlapMeans(first, a, second, b);
    RangesMeet(a, Size(first), b, Size(second));
  }

  /** The second object lies inside the first one and is not the same range. */
  predicate ProperlyInside(a: nat, sizeA: nat, b: nat, sizeB: nat) {
    a <= b && b + sizeB <= a + sizeA && (a != b || sizeA != sizeB)
  }

  lemma EmbedsIsHelper(first: Type, a: nat, second: Type, b: nat)
    requires Inhabited(first) && Inhabited(second) && Fits(first, a) && Fits(second, b)
    requires WellFormed(Strip(first))
    ensures Embeds(Some(first), a, Some(second), b) == FirstEmbedsSecond <==>
            ProperlyInside(a, Size(first), b, Size(second)) && Helper(Strip(first), Strip(second), b - a)
  {
    hide Helper, WellFormed, Size, Strip;
  }

  /**
   * "First embeds second": the second range lies properly inside, and a path in view leads to its type there
   * or goes astray and meets it. So a "yes" is wrong exactly where only a path astray leads to it, and a "no"
   * where every path is hidden.
   */
  lemma EmbedsIsPathOrAstray(first: Type, a: nat, second: Type, b: nat)
    requires Inhabited(first) && Inhabited(second) && Fits(first, a) && Fits(second, b)
    ensures Embeds(Some(first), a, Some(second), b) == FirstEmbedsSecond <==>
            && ProperlyInside(a, Size(first), b, Size(second))
            && (HasPathInView(Strip(first), Strip(second), b - a) || GoesAstray(Strip(first), Strip(second), b - a))
  {
    hide Helper, HasPathInView, GoesAstray, WellFormed, Embeds, Strip, Size, Fits;
    WellFormedStrip(first);
    EmbedsIsHelper(first, a, second, b);
    if ProperlyInside(a, Size(first), b, Size(second)) {
      HelperIsPathOrAstray(Strip(first), Strip(second), b - a);
    }
  }

  /** For a tight and clear type: exactly if the second range lies properly inside and a path leads there. */
  lemma EmbedsIsPath(first: Type, a: nat, second: Type, b: nat)
    requires Inhabited(first) && Inhabited(second) && Fits(first, a) && Fits(second, b)
    requires Clear(first) && Tight(first)
    ensures Embeds(Some(first), a, Some(second), b) == FirstEmbedsSecond <==>
            && ProperlyInside(a, Size(first), b, Size(second))
            && HasPath(Strip(first), Strip(second), b - a)
  {
    hide Helper, HasPath, Clear, Tight, WellFormed, Embeds, Strip, Fits;
    WellFormedStrip(first);
    ClearStrip(first);
    TightStrip(first);
    EmbedsIsHelper(first, a, second, b);
    if ProperlyInside(a, Size(first), b, Size(second)) {
      HelperIsPath(Strip(first), Strip(second), b - a);
    }
  }

  /** One range: "equal" for one type, "cover" for two of the same size. */
  lemma SameRange(first: Type, a: nat, second: Type, b: nat)
    requires Inhabited(first) && Inhabited(second) && Fits(first, a) && Fits(second, b)
    ensures Embeds(Some(first), a, Some(second), b) == Equal <==> a == b && first == second
    ensures Embeds(Some(first), a, Some(second), b) == Cover <==>
              a == b && first != second && Size(first) == Size(second)
  {
    hide Helper, WellFormed, Strip;
  }

  /** One object embeds the other, given where they lie. */
  ghost predicate LiesWithin(first: Type, a: nat, second: Type, b: nat) {
    && ProperlyInside(a, Size(first), b, Size(second))
    && (HasPathInView(Strip(first), Strip(second), b - a) || GoesAstray(Strip(first), Strip(second), b - a))
  }

  /** "Overlap": the ranges meet, they are not the same, and neither object embeds the other. */
  lemma OverlapMeans(first: Type, a: nat, second: Type, b: nat)
    requires Inhabited(first) && Inhabited(second) && Fits(first, a) && Fits(second, b)
    ensures Embeds(Some(first), a, Some(second), b) == SecondEmbedsFirst <==> LiesWithin(second, b, first, a)
    ensures Embeds(Some(first), a, Some(second), b) == Overlap <==>
            && (exists x: nat :: Occupies(a, Size(first), x) && Occupies(b, Size(second), x))
            && !(a == b && Size(first) == Size(second))
            && !LiesWithin(first, a, second, b) && !LiesWithin(second, b, first, a)
  {
    hide Embeds, HasPathInView, GoesAstray, WellFormed, Occupies, Strip, Size, ProperlyInside;
    EmbedsMirrors(first, a, second, b);
    EmbedsIsPathOrAstray(first, a, second, b);
    EmbedsIsPathOrAstray(second, b, first, a);
    NoOverlapIsDisjoint(first, a, second, b);
    SameRange(first, a, second, b);
  }

  /** A type that is not known, or has no size, overlaps with nothing. */
  lemma NothingOverlaps(first: Option<Type>, a: nat, second: Option<Type>, b: nat)
    requires first.Some? ==> WellFormed(first.value)
    requires second.Some? ==> WellFormed(second.value)
    requires first.None? || Size(first.value) == 0
    ensures Embeds(first, a, second, b) == Embeds(second, b, first, a) == NoOverlap
  {
  }

  /** What two members are compared by. */
  function Signature(m: Member): (Type, string, int) { (m.ty, m.name, m.bits) }

  function Signatures(ms: seq<Member>): seq<(Type, string, int)> {
    seq(|ms|, i requires 0 <= i < |ms| => Signature(ms[i]))
  }

  /** Two structures match without being equal if one begins with all members of the other, of which it has two. */
  lemma PrefixMatches(first: Type, second: Type)
    requires first.Struct? && (second.Struct? || second.Union?) && first != second
    ensures var a, b := Signatures(first.members), Signatures(second.members);
            Matches(first, second, 0) <==> (a <= b && |a| >= 2) || (b <= a && |b| >= 2)
  {
    var a, b := Signatures(first.members), Signatures(second.members);
    if Matches(first, second, 0) {
      var n := Min(|a|, |b|);
      forall i | 0 <= i < n ensures a[i] == b[i] {
        assert first.members[i].ty == second.members[i].ty;
      }
    }
    if a <= b || b <= a {
      forall i | 0 <= i < Min(|a|, |b|) ensures Signature(first.members[i]) == Signature(second.members[i]) {
        assert a[i] == b[i];
      }
    }
  }

  /** Anything else matches itself only, and everything matches at its start only. */
  lemma MatchesItself(first: Type, second: Type, offset: nat)
    ensures !first.Struct? || !(second.Struct? || second.Union?) ==>
              (Matches(first, second, offset) <==> offset == 0 && first == second)
    ensures offset > 0 ==> !Matches(first, second, offset)
    ensures Matches(first, first, 0)
  {
  }
}
